/** `ClinicRepositoryImpl`: the partial update of a clinic, deletion, landlord
    assignment, and the filtered search, over an in-memory clinics table.

    The table is a map from clinic id to the stored row. A search reads the
    table as a listing of rows in scan order, because SQL leaves the order of
    an unordered query to the database. */
module ClinicRepository {
  import opened Wrappers

  /** A `java.sql.Date`, as a day number. */
  type Date = int
  /** A `LocalTime`, as a count of time units since midnight. */
  type Time = int

  datatype Category =
    GeneralPurpose | Dentist | Pediatric | Psychological | Surgical | Dermatological

  /** The domain `Clinic`: every reference-typed field may be null; the two
      primitives `pricePerDay` (a `double`) and `maxStayDays` (an `int`) are
      always present, 0 when unset. `landlord` is the landlord's user id. */
  datatype Clinic = Clinic(
    id: Option<int>,
    displayName: Option<string>,
    category: Option<Category>,
    description: Option<string>,
    pricePerDay: real,
    maxStayDays: int,
    availableFromDate: Option<Date>,
    availableToDate: Option<Date>,
    addressStreet: Option<string>,
    addressCity: Option<string>,
    addressState: Option<string>,
    addressZip: Option<string>,
    addressCountry: Option<string>,
    addressLongitude: Option<string>,
    addressLatitude: Option<string>,
    size: int,
    landlord: Option<int>,
    createdAt: Option<Instant>)

  datatype Equipment = Equipment(equipmentType: string)

  datatype Availability = Availability(startTime: Time, endTime: Time)

  /** A row of the `clinics` table with its equipment and availability
      children. Every column is non-null except the landlord. */
  datatype ClinicEntity = ClinicEntity(
    id: int,
    displayName: string,
    category: Category,
    description: string,
    pricePerDay: real,
    maxStayDays: int,
    addressStreet: string,
    addressCity: string,
    addressState: string,
    addressZip: string,
    addressCountry: string,
    addressLongitude: string,
    addressLatitude: string,
    createdAt: Instant,
    availableFromDate: Date,
    availableToDate: Date,
    size: int,
    landlord: Option<int>,
    equipments: seq<Equipment>,
    availabilities: seq<Availability>)

  type Store = map<int, ClinicEntity>

  /** Every row is filed under its own id. */
  predicate WellKeyed(store: Store) {
    forall k :: k in store ==> store[k].id == k
  }

  /** The `NotFoundException`s the repository throws. */
  datatype RepoError = ClinicNotFound(clinicId: int) | UserNotFound(userId: int)

  // ----- updateClinic -----

  /** The fields of `e` after the patch `p`: the three reference fields take
      the patch's value when it is non-null, the two numbers take it when it
      is positive; nothing else is touched. */
  function Merge(e: ClinicEntity, p: Clinic): (r: ClinicEntity)
    ensures r.displayName == (if p.displayName.Some? then p.displayName.value else e.displayName)
    ensures r.category == (if p.category.Some? then p.category.value else e.category)
    ensures r.description == (if p.description.Some? then p.description.value else e.description)
    ensures r.pricePerDay == (if p.pricePerDay > 0.0 then p.pricePerDay else e.pricePerDay)
    ensures r.maxStayDays == (if p.maxStayDays > 0 then p.maxStayDays else e.maxStayDays)
    // every other column, and the children, are those of `e`
    ensures r.(displayName := e.displayName, category := e.category, description := e.description,
               pricePerDay := e.pricePerDay, maxStayDays := e.maxStayDays) == e
  {
    var e1 := if p.displayName.Some? then e.(displayName := p.displayName.value) else e;
    var e2 := if p.category.Some? then e1.(category := p.category.value) else e1;
    var e3 := if p.description.Some? then e2.(description := p.description.value) else e2;
    var e4 := if p.pricePerDay > 0.0 then e3.(pricePerDay := p.pricePerDay) else e3;
    if p.maxStayDays > 0 then e4.(maxStayDays := p.maxStayDays) else e4
  }

  /** `updateClinic(id, clinic)`: the new table and the updated row, or
      `ClinicNotFound` with the table as it was. */
  function UpdateClinic(store: Store, id: int, patch: Clinic): (r: (Store, Result<ClinicEntity, RepoError>))
    ensures id !in store ==> r.0 == store && r.1 == Err(ClinicNotFound(id))
    ensures id in store ==> r.1.Ok? && r.0 == store[id := r.1.value]
    ensures id in store ==> r.1.value == Merge(store[id], patch)
    ensures r.0.Keys == store.Keys
    ensures forall k :: k in store && k != id ==> r.0[k] == store[k]
  {
    if id !in store then (store, Err(ClinicNotFound(id)))
    else
      var e := Merge(store[id], patch);
      (store[id := e], Ok(e))
  }

  /** A patch that sets nothing: all references null, both numbers 0. */
  function EmptyPatch(): Clinic {
    Clinic(None, None, None, None, 0.0, 0, None, None, None, None, None, None, None, None, None, 0, None, None)
  }

  /** Applying the same patch twice is applying it once. */
  lemma UpdateIdempotent(store: Store, id: int, patch: Clinic)
    ensures var (s1, _) := UpdateClinic(store, id, patch);
      UpdateClinic(s1, id, patch) == (s1, UpdateClinic(store, id, patch).1)
  {
    if id in store {
      var e := Merge(store[id], patch);
      assert Merge(e, patch) == e;
      assert store[id := e][id := e] == store[id := e];
    }
  }

  /** An empty patch leaves the row, and the table, exactly as they were. */
  lemma EmptyPatchIsIdentity(store: Store, id: int)
    requires id in store
    ensures UpdateClinic(store, id, EmptyPatch()) == (store, Ok(store[id]))
  {
    assert store[id := store[id]] == store;
  }

  /** Updating keeps the table well keyed. */
  lemma UpdateKeepsKeys(store: Store, id: int, patch: Clinic)
    requires WellKeyed(store)
    ensures WellKeyed(UpdateClinic(store, id, patch).0)
  {
  }

  // ----- deleteClinicById -----

  /** `deleteClinicById(id)`: the row removed, or `ClinicNotFound`. */
  function DeleteClinicById(store: Store, id: int): (r: Result<Store, RepoError>)
    ensures id in store <==> r.Ok?
    ensures r.Ok? ==> r.value.Keys == store.Keys - {id}
    ensures r.Ok? ==> forall k :: k in r.value ==> r.value[k] == store[k]
    ensures r.Err? ==> r.error == ClinicNotFound(id)
  {
    if id in store then Ok(map k | k in store && k != id :: store[k]) else Err(ClinicNotFound(id))
  }

  /** Deleting the same id twice fails the second time. */
  lemma DeleteTwiceFails(store: Store, id: int)
    requires id in store
    ensures DeleteClinicById(DeleteClinicById(store, id).value, id) == Err(ClinicNotFound(id))
  {
  }

  /** Deletion keeps the table well keyed. */
  lemma DeleteKeepsKeys(store: Store, id: int)
    requires WellKeyed(store)
    ensures var r := DeleteClinicById(store, id); r.Ok? ==> WellKeyed(r.value)
  {
  }

  // ----- assignClinicToUser -----

  /** `assignClinicToUser(clinicId, userId)` with `users` the ids of the
      existing users: the clinic is looked up first, then the user; on
      success only the landlord of that clinic changes. */
  function AssignClinicToUser(store: Store, users: set<int>, clinicId: int, userId: int)
    : (r: (Store, Result<ClinicEntity, RepoError>))
    ensures clinicId !in store ==> r == (store, Err(ClinicNotFound(clinicId)))
    ensures clinicId in store && userId !in users ==> r == (store, Err(UserNotFound(userId)))
    ensures clinicId in store && userId in users ==>
      && r.1 == Ok(store[clinicId].(landlord := Some(userId)))
      && r.0 == store[clinicId := r.1.value]
  {
    if clinicId !in store then (store, Err(ClinicNotFound(clinicId)))
    else if userId !in users then (store, Err(UserNotFound(userId)))
    else
      var e := store[clinicId].(landlord := Some(userId));
      (store[clinicId := e], Ok(e))
  }

  /** Assigning a clinic to the user it already belongs to changes nothing,
      and assignment is idempotent. */
  lemma AssignIdempotent(store: Store, users: set<int>, clinicId: int, userId: int)
    ensures var (s1, r1) := AssignClinicToUser(store, users, clinicId, userId);
      AssignClinicToUser(s1, users, clinicId, userId) == (s1, r1)
  {
    if clinicId in store && userId in users {
      var e := store[clinicId].(landlord := Some(userId));
      assert store[clinicId := e][clinicId := e] == store[clinicId := e];
    }
  }

  /** Assignment keeps the table well keyed. */
  lemma AssignKeepsKeys(store: Store, users: set<int>, clinicId: int, userId: int)
    requires WellKeyed(store)
    ensures WellKeyed(AssignClinicToUser(store, users, clinicId, userId).0)
  {
  }

  /** The clinic check comes first: with neither the clinic nor the user
      present the error names the clinic. */
  lemma AssignReportsClinicFirst(store: Store, users: set<int>, clinicId: int, userId: int)
    requires clinicId !in store && userId !in users
    ensures AssignClinicToUser(store, users, clinicId, userId).1 == Err(ClinicNotFound(clinicId))
  {
  }

  // ----- getFilteredClinics -----

  /** `ClinicQueryDTO`: each criterion is optional. */
  datatype ClinicQuery = ClinicQuery(
    targetDate: Option<Date>,
    equipmentList: Option<seq<string>>,
    targetHour: Option<Time>,
    targetCity: Option<string>)

  predicate DateMatches(q: ClinicQuery, c: ClinicEntity) {
    q.targetDate.Some? ==> c.availableFromDate <= q.targetDate.value <= c.availableToDate
  }

  predicate CityMatches(q: ClinicQuery, c: ClinicEntity) {
    q.targetCity.Some? ==> c.addressCity == q.targetCity.value
  }

  predicate EquipmentMatches(q: ClinicQuery, e: Equipment)
    requires q.equipmentList.Some?
  {
    e.equipmentType in q.equipmentList.value
  }

  predicate AvailabilityMatches(q: ClinicQuery, a: Availability)
    requires q.targetHour.Some?
  {
    a.startTime <= q.targetHour.value <= a.endTime
  }

  /** What the search means, stated per clinic: every supplied criterion
      holds, and an absent one imposes nothing. */
  predicate Matches(q: ClinicQuery, c: ClinicEntity) {
    && DateMatches(q, c)
    && (q.equipmentList.Some? ==> exists i :: 0 <= i < |c.equipments| && EquipmentMatches(q, c.equipments[i]))
    && (q.targetHour.Some? ==> exists i :: 0 <= i < |c.availabilities| && AvailabilityMatches(q, c.availabilities[i]))
    && CityMatches(q, c)
  }

  /** How many equipment rows the inner join keeps for `c`: one row per
      matching equipment, or the clinic's single row without that join. */
  function EquipmentRows(q: ClinicQuery, es: seq<Equipment>): nat {
    if q.equipmentList.None? then 1
    else if |es| == 0 then 0
    else (if EquipmentMatches(q, es[0]) then 1 else 0) + EquipmentRows(q, es[1..])
  }

  function AvailabilityRows(q: ClinicQuery, avs: seq<Availability>): nat {
    if q.targetHour.None? then 1
    else if |avs| == 0 then 0
    else (if AvailabilityMatches(q, avs[0]) then 1 else 0) + AvailabilityRows(q, avs[1..])
  }

  /** How many times the joined `WHERE` lets `c` through: the product of the
      surviving rows of each join, if the clinic's own columns pass. */
  function JoinedRows(q: ClinicQuery, c: ClinicEntity): nat {
    if DateMatches(q, c) && CityMatches(q, c)
    then EquipmentRows(q, c.equipments) * AvailabilityRows(q, c.availabilities)
    else 0
  }

  /** The result of the joined query before `DISTINCT`, in scan order. */
  function Joined(q: ClinicQuery, rows: seq<ClinicEntity>): seq<ClinicEntity> {
    if |rows| == 0 then [] else Repeat(rows[0], JoinedRows(q, rows[0])) + Joined(q, rows[1..])
  }

  predicate NoDuplicates<T(==)>(s: seq<T>) {
    forall i, j :: 0 <= i < j < |s| ==> s[i] != s[j]
  }

  /** `DISTINCT`: the first occurrence of each row, in order. */
  function Distinct(s: seq<ClinicEntity>): (r: seq<ClinicEntity>)
    ensures NoDuplicates(r)
    ensures forall x :: x in r <==> x in s
  {
    if |s| == 0 then []
    else
      var d := Distinct(s[..|s| - 1]);
      var x := s[|s| - 1];
      assert forall y :: y in s <==> y in s[..|s| - 1] || y == x;
      if x in d then d else d + [x]
  }

  /** `getFilteredClinics(filter)` over the rows of the table. */
  function GetFilteredClinics(q: ClinicQuery, rows: seq<ClinicEntity>): seq<ClinicEntity> {
    Distinct(Joined(q, rows))
  }

  lemma {:induction false} EquipmentRowsPositive(q: ClinicQuery, es: seq<Equipment>)
    requires q.equipmentList.Some?
    ensures EquipmentRows(q, es) > 0 <==> exists i :: 0 <= i < |es| && EquipmentMatches(q, es[i])
  {
    if |es| > 0 {
      EquipmentRowsPositive(q, es[1..]);
      if exists i :: 0 <= i < |es[1..]| && EquipmentMatches(q, es[1..][i]) {
        var i :| 0 <= i < |es[1..]| && EquipmentMatches(q, es[1..][i]);
        assert EquipmentMatches(q, es[i + 1]);
      }
      if exists i :: 0 <= i < |es| && EquipmentMatches(q, es[i]) {
        var i :| 0 <= i < |es| && EquipmentMatches(q, es[i]);
        if i > 0 {
          assert EquipmentMatches(q, es[1..][i - 1]);
        }
      }
    }
  }

  lemma {:induction false} AvailabilityRowsPositive(q: ClinicQuery, avs: seq<Availability>)
    requires q.targetHour.Some?
    ensures AvailabilityRows(q, avs) > 0 <==> exists i :: 0 <= i < |avs| && AvailabilityMatches(q, avs[i])
  {
    if |avs| > 0 {
      AvailabilityRowsPositive(q, avs[1..]);
      if exists i :: 0 <= i < |avs[1..]| && AvailabilityMatches(q, avs[1..][i]) {
        var i :| 0 <= i < |avs[1..]| && AvailabilityMatches(q, avs[1..][i]);
        assert AvailabilityMatches(q, avs[i + 1]);
      }
      if exists i :: 0 <= i < |avs| && AvailabilityMatches(q, avs[i]) {
        var i :| 0 <= i < |avs| && AvailabilityMatches(q, avs[i]);
        if i > 0 {
          assert AvailabilityMatches(q, avs[1..][i - 1]);
        }
      }
    }
  }

  /** The joined query lets a clinic through at least once exactly when it
      matches the search. */
  lemma JoinedRowsPositive(q: ClinicQuery, c: ClinicEntity)
    ensures JoinedRows(q, c) > 0 <==> Matches(q, c)
  {
    if q.equipmentList.Some? {
      EquipmentRowsPositive(q, c.equipments);
    }
    if q.targetHour.Some? {
      AvailabilityRowsPositive(q, c.availabilities);
    }
    var a := EquipmentRows(q, c.equipments);
    var b := AvailabilityRows(q, c.availabilities);
    assert a * b > 0 <==> a > 0 && b > 0;
  }

  lemma {:induction false} JoinedMembers(q: ClinicQuery, rows: seq<ClinicEntity>, c: ClinicEntity)
    ensures c in Joined(q, rows) <==> c in rows && Matches(q, c)
  {
    if |rows| > 0 {
      JoinedMembers(q, rows[1..], c);
      JoinedRowsPositive(q, rows[0]);
      var head := Repeat(rows[0], JoinedRows(q, rows[0]));
      assert c in head <==> c == rows[0] && JoinedRows(q, rows[0]) > 0 by {
        if c in head {
          var i :| 0 <= i < |head| && head[i] == c;
        }
        if c == rows[0] && JoinedRows(q, rows[0]) > 0 {
          assert head[0] == c;
        }
      }
      assert c in rows <==> c == rows[0] || c in rows[1..] by {
        assert rows == [rows[0]] + rows[1..];
      }
    }
  }

  /** The search returns each matching row of the table once, and nothing
      else. */
  lemma FilteredClinics(q: ClinicQuery, rows: seq<ClinicEntity>)
    ensures var r := GetFilteredClinics(q, rows);
      && NoDuplicates(r)
      && forall c :: c in r <==> c in rows && Matches(q, c)
  {
    forall c
      ensures c in GetFilteredClinics(q, rows) <==> c in rows && Matches(q, c)
    {
      JoinedMembers(q, rows, c);
    }
  }

  /** A query with no criterion returns every row once. */
  lemma NoCriteriaReturnsAll(rows: seq<ClinicEntity>)
    ensures forall c :: c in GetFilteredClinics(ClinicQuery(None, None, None, None), rows) <==> c in rows
  {
    FilteredClinics(ClinicQuery(None, None, None, None), rows);
  }

  /** Adding a city criterion to a query can only narrow its result. */
  lemma CityNarrows(q: ClinicQuery, city: string, rows: seq<ClinicEntity>)
    requires q.targetCity.None?
    ensures forall c :: c in GetFilteredClinics(q.(targetCity := Some(city)), rows) ==>
      c in GetFilteredClinics(q, rows) && c.addressCity == city
  {
    FilteredClinics(q, rows);
    FilteredClinics(q.(targetCity := Some(city)), rows);
  }
}
