/** The persistent log store: a capacity-bounded collection of records with
    eviction of the earliest record. The CoreData store is an abstract
    sequence of records in insertion order. */
module LoggerDataManager {
  import opened Results
  import V = LoggerValue

  /** The default capacity of the store. */
  const DefaultLogsLimit: int := 5000

  /** A persisted `LoggerEntity`; `id` stands for its managed object ID. */
  datatype Entity = Entity(id: nat, creationDate: int, logLevel: int, message: string)

  /** The manager and the records of its store. `nextId` is the object ID the
      next inserted record gets; IDs are never reused. */
  datatype Manager = Manager(logsLimit: int, isStoreInMemory: bool, records: seq<Entity>, nextId: nat)

  /** A Swift runtime trap: `logs[0]` on an empty fetch result. */
  datatype Fault = IndexOutOfRange

  /** An ID above every ID of `xs`. */
  function NextFreeId(xs: seq<Entity>): (n: nat)
    ensures IdsBelow(xs, n)
  {
    if xs == [] then 0
    else
      var rest := NextFreeId(xs[1..]);
      var n := if xs[0].id + 1 <= rest then rest else xs[0].id + 1;
      assert forall i :: 1 <= i < |xs| ==> xs[i] == xs[1..][i - 1];
      n
  }

  /** `init(logsLimit:storeInMemory:)`: the manager only stores its
      arguments, over whatever records the store already holds. */
  function NewManager(logsLimit: int, storeInMemory: bool, stored: seq<Entity>): (m: Manager)
    ensures m.records == stored && m.logsLimit == logsLimit && m.isStoreInMemory == storeInMemory
    ensures DistinctIds(stored) ==> UniqueIds(m)
  {
    Manager(logsLimit, storeInMemory, stored, NextFreeId(stored))
  }

  /** The manager built with its default arguments, over the on-disk store. */
  function NewDefaultManager(stored: seq<Entity>): (m: Manager)
    ensures m.records == stored && m.logsLimit == 5000 && !m.isStoreInMemory
    ensures DistinctIds(stored) ==> UniqueIds(m)
  {
    NewManager(DefaultLogsLimit, false, stored)
  }

  /** Every record has its own ID, below `nextId`. */
  ghost predicate UniqueIds(m: Manager)
  {
    DistinctIds(m.records) && IdsBelow(m.records, m.nextId)
  }

  ghost predicate DistinctIds(xs: seq<Entity>)
  {
    forall i, j :: 0 <= i < j < |xs| ==> xs[i].id != xs[j].id
  }

  ghost predicate IdsBelow(xs: seq<Entity>, bound: nat)
  {
    forall i :: 0 <= i < |xs| ==> xs[i].id < bound
  }

  ghost predicate SortedByDate(xs: seq<Entity>)
  {
    forall i, j :: 0 <= i < j < |xs| ==> xs[i].creationDate <= xs[j].creationDate
  }

  /** `e` is a record of `xs` with no record of `xs` dated before it. */
  ghost predicate IsEarliest(e: Entity, xs: seq<Entity>)
  {
    e in xs && forall y :: y in xs ==> e.creationDate <= y.creationDate
  }

  /** Puts `e` into a date-sorted sequence, before the records of its date. */
  function InsertByDate(e: Entity, xs: seq<Entity>): (r: seq<Entity>)
    ensures |r| == |xs| + 1
  {
    if xs == [] || e.creationDate <= xs[0].creationDate then [e] + xs
    else [xs[0]] + InsertByDate(e, xs[1..])
  }

  /** Insertion adds exactly the one record. */
  lemma {:induction false} InsertByDatePermutes(e: Entity, xs: seq<Entity>)
    ensures multiset(InsertByDate(e, xs)) == multiset(xs) + multiset{e}
  {
    if xs != [] && e.creationDate > xs[0].creationDate {
      InsertByDatePermutes(e, xs[1..]);
      assert xs == [xs[0]] + xs[1..];
    }
  }

  /** Insertion into a date-sorted sequence keeps it sorted. */
  lemma {:induction false} InsertByDateSorted(e: Entity, xs: seq<Entity>)
    requires SortedByDate(xs)
    ensures SortedByDate(InsertByDate(e, xs))
  {
    if xs != [] && e.creationDate > xs[0].creationDate {
      var tail := xs[1..];
      var rest := InsertByDate(e, tail);
      InsertByDateSorted(e, tail);
      InsertByDatePermutes(e, tail);
      forall k | 0 <= k < |rest|
        ensures xs[0].creationDate <= rest[k].creationDate
      {
        assert rest[k] in multiset(rest);
        if rest[k] != e {
          assert rest[k] in multiset(tail);
          var j :| 0 <= j < |tail| && tail[j] == rest[k];
          assert xs[j + 1] == rest[k];
        }
      }
      assert InsertByDate(e, xs) == [xs[0]] + rest;
    }
  }

  /** The ascending-date order of a fetch request with a `creationDate` sort
      descriptor; records of equal date keep their store order. */
  function SortByDate(xs: seq<Entity>): (r: seq<Entity>)
    ensures |r| == |xs|
    ensures SortedByDate(r)
    ensures multiset(r) == multiset(xs)
  {
    if xs == [] then []
    else
      var rest := SortByDate(xs[1..]);
      InsertByDateSorted(xs[0], rest);
      InsertByDatePermutes(xs[0], rest);
      assert xs == [xs[0]] + xs[1..];
      InsertByDate(xs[0], rest)
  }

  /** The first record of a date-sorted permutation of `xs` is an earliest one. */
  lemma {:induction false} SortedHeadIsEarliest(xs: seq<Entity>, r: seq<Entity>)
    requires |r| > 0 && SortedByDate(r) && multiset(r) == multiset(xs)
    ensures IsEarliest(r[0], xs)
  {
    assert r[0] in multiset(r);
    forall y | y in xs
      ensures r[0].creationDate <= y.creationDate
    {
      assert y in multiset(xs);
      assert y in r;
      var k :| 0 <= k < |r| && r[k] == y;
    }
  }

  /** `fetchAllLogs`: every record in ascending-date order; a failing fetch
      is caught and yields no records. */
  function FetchAllLogs(m: Manager, fetchSucceeds: bool): (r: seq<Entity>)
    ensures fetchSucceeds ==> SortedByDate(r) && multiset(r) == multiset(m.records)
    ensures !fetchSucceeds ==> r == []
  {
    if fetchSucceeds then SortByDate(m.records) else []
  }

  /** The records of `xs` other than the one(s) with ID `id`, in order. */
  function RemoveById(xs: seq<Entity>, id: nat): (r: seq<Entity>)
    ensures |r| <= |xs|
  {
    if xs == [] then []
    else (if xs[0].id == id then [] else [xs[0]]) + RemoveById(xs[1..], id)
  }

  /** Removal keeps exactly the records with another ID, and shrinks the
      sequence whenever some record has the ID. */
  lemma {:induction false} RemoveByIdMembers(xs: seq<Entity>, id: nat)
    ensures forall y :: y in RemoveById(xs, id) <==> y in xs && y.id != id
    ensures (exists i :: 0 <= i < |xs| && xs[i].id == id) ==> |RemoveById(xs, id)| < |xs|
  {
    if xs != [] {
      RemoveByIdMembers(xs[1..], id);
      assert xs == [xs[0]] + xs[1..];
      if exists i :: 0 <= i < |xs| && xs[i].id == id {
        if xs[0].id != id {
          var i :| 0 <= i < |xs| && xs[i].id == id;
          assert xs[1..][i - 1].id == id;
        }
      }
    }
  }

  /** Removal distributes over concatenation. */
  lemma {:induction false} RemoveByIdConcat(a: seq<Entity>, b: seq<Entity>, id: nat)
    ensures RemoveById(a + b, id) == RemoveById(a, id) + RemoveById(b, id)
  {
    if a == [] {
      assert a + b == b;
    } else {
      assert (a + b)[1..] == a[1..] + b;
      RemoveByIdConcat(a[1..], b, id);
    }
  }

  /** When IDs are unique, removing the ID of record `k` removes exactly that
      record and keeps every other one in order. */
  lemma {:induction false} RemoveByIdExactlyOne(xs: seq<Entity>, k: nat)
    requires k < |xs|
    requires DistinctIds(xs)
    ensures RemoveById(xs, xs[k].id) == xs[..k] + xs[k + 1..]
  {
    var id := xs[k].id;
    var before, after := xs[..k], xs[k + 1..];
    assert xs == before + ([xs[k]] + after);
    forall i | 0 <= i < |before|
      ensures before[i].id != id
    {
      assert before[i] == xs[i];
    }
    forall i | 0 <= i < |after|
      ensures after[i].id != id
    {
      assert after[i] == xs[k + 1 + i];
    }
    RemoveByIdAbsent(before, id);
    RemoveByIdAbsent(after, id);
    var single := [xs[k]];
    assert single[1..] == [];
    assert RemoveById(single, id) == [];
    RemoveByIdConcat(single, after, id);
    assert RemoveById(single + after, id) == after;
    RemoveByIdConcat(before, single + after, id);
  }

  /** Removing an ID no record has changes nothing. */
  lemma {:induction false} RemoveByIdAbsent(xs: seq<Entity>, id: nat)
    requires forall i :: 0 <= i < |xs| ==> xs[i].id != id
    ensures RemoveById(xs, id) == xs
  {
    if xs != [] {
      RemoveByIdAbsent(xs[1..], id);
    }
  }

  /** The record `saveLog` inserts for `log`: its date, its level's raw value
      (which fits the entity's Int16) and its message, under a fresh ID. */
  function NewEntity(m: Manager, log: V.Value): (e: Entity)
    ensures e.id == m.nextId
    ensures e.creationDate == log.creationDate && e.message == log.message
    ensures V.LevelFromRaw(e.logLevel) == Some(log.level)
  {
    Entity(m.nextId, log.creationDate, V.RawValue(log.level), log.message)
  }

  function Insert(m: Manager, log: V.Value): Manager
  {
    m.(records := m.records + [NewEntity(m, log)], nextId := m.nextId + 1)
  }

  /** `saveLog`: fetches the records in date order; when there are at least
      `logsLimit` of them the first is deleted; then the new record is added.
      An empty fetch at or above the limit traps on `logs[0]`. */
  function SaveLog(m: Manager, log: V.Value, fetchSucceeds: bool): (r: Result<Manager, Fault>)
    ensures r.Failure? <==> (!fetchSucceeds || m.records == []) && m.logsLimit <= 0
    ensures r.Success? ==>
              && |r.value.records| > 0
              && r.value.records[|r.value.records| - 1] == NewEntity(m, log)
              && r.value.nextId == m.nextId + 1
              && r.value.logsLimit == m.logsLimit
              && r.value.isStoreInMemory == m.isStoreInMemory
    ensures r.Success? && (!fetchSucceeds || |m.records| < m.logsLimit) ==>
              r.value.records == m.records + [NewEntity(m, log)]
    ensures r.Success? && fetchSucceeds && |m.records| >= m.logsLimit ==>
              var first := FetchAllLogs(m, true)[0];
              && IsEarliest(first, m.records)
              && r.value.records == RemoveById(m.records, first.id) + [NewEntity(m, log)]
  {
    var logs := FetchAllLogs(m, fetchSucceeds);
    if |logs| >= m.logsLimit then
      if |logs| == 0 then Failure(IndexOutOfRange)
      else
        SortedHeadIsEarliest(m.records, logs);
        var evicted := m.(records := RemoveById(m.records, logs[0].id));
        Success(Insert(evicted, log))
    else
      Success(Insert(m, log))
  }

  /** `deleteLog`: removes the given record if the store still holds it;
      otherwise nothing changes. */
  function DeleteLog(m: Manager, log: Entity): (r: Manager)
    ensures forall y :: y in r.records <==> y in m.records && y.id != log.id
    ensures (forall i :: 0 <= i < |m.records| ==> m.records[i].id != log.id) ==> r == m
    ensures DistinctIds(m.records) ==>
              forall k :: 0 <= k < |m.records| && m.records[k].id == log.id ==>
                r.records == m.records[..k] + m.records[k + 1..]
    ensures r.logsLimit == m.logsLimit && r.nextId == m.nextId
    ensures r.isStoreInMemory == m.isStoreInMemory
  {
    if exists i :: 0 <= i < |m.records| && m.records[i].id == log.id then
      RemoveByIdMembers(m.records, log.id);
      assert DistinctIds(m.records) ==>
               forall k :: 0 <= k < |m.records| && m.records[k].id == log.id ==>
                 RemoveById(m.records, log.id) == m.records[..k] + m.records[k + 1..] by {
        if DistinctIds(m.records) {
          forall k | 0 <= k < |m.records| && m.records[k].id == log.id
            ensures RemoveById(m.records, log.id) == m.records[..k] + m.records[k + 1..]
          {
            RemoveByIdExactlyOne(m.records, k);
          }
        }
      }
      m.(records := RemoveById(m.records, log.id))
    else
      m
  }

  /** `deleteFirstLog`: fetches the earliest record and deletes it; on an
      empty store `logs[0]` traps. */
  function DeleteFirstLog(m: Manager): (r: Result<Manager, Fault>)
    ensures r.Failure? <==> m.records == []
    ensures r.Success? ==> |r.value.records| < |m.records|
    ensures r.Success? ==> forall y :: y in r.value.records ==> y in m.records
  {
    var logs := SortByDate(m.records);
    if logs == [] then Failure(IndexOutOfRange)
    else
      assert logs[0] in multiset(m.records);
      RemoveByIdMembers(m.records, logs[0].id);
      Success(DeleteLog(m, logs[0]))
  }

  /** `deleteAllLogs`: the batch delete of an on-disk store and the
      destruction of an in-memory store both leave no record, so the two
      branches are one here. */
  function DeleteAllLogs(m: Manager): (r: Manager)
    ensures r.records == []
    ensures r.logsLimit == m.logsLimit && r.isStoreInMemory == m.isStoreInMemory
    ensures r.nextId == m.nextId
    ensures UniqueIds(r)
  {
    m.(records := [])
  }

  /** Cutting one record out keeps IDs distinct and bounded. */
  lemma {:induction false} RemoveAtKeepsIds(xs: seq<Entity>, k: nat, bound: nat)
    requires k < |xs| && DistinctIds(xs) && IdsBelow(xs, bound)
    ensures DistinctIds(xs[..k] + xs[k + 1..]) && IdsBelow(xs[..k] + xs[k + 1..], bound)
  {
    var ys := xs[..k] + xs[k + 1..];
    forall i | 0 <= i < |ys|
      ensures ys[i] == xs[if i < k then i else i + 1]
    {
    }
  }

  /** Appending a record whose ID is at least every present bound keeps IDs
      distinct and moves the bound past it. */
  lemma {:induction false} AppendFreshKeepsIds(xs: seq<Entity>, e: Entity)
    requires DistinctIds(xs) && IdsBelow(xs, e.id)
    ensures DistinctIds(xs + [e]) && IdsBelow(xs + [e], e.id + 1)
  {
  }

  /** With a working fetch, a store within a positive capacity stays within
      it: below the limit a save adds one record, at the limit the count
      stays put; IDs stay unique. */
  lemma {:induction false} SaveLogKeepsCapacity(m: Manager, log: V.Value)
    requires 0 < m.logsLimit && |m.records| <= m.logsLimit && UniqueIds(m)
    ensures SaveLog(m, log, true).Success?
    ensures var m' := SaveLog(m, log, true).value;
            && |m'.records| <= m'.logsLimit
            && UniqueIds(m')
            && (|m.records| < m.logsLimit ==> |m'.records| == |m.records| + 1)
            && (|m.records| == m.logsLimit ==> |m'.records| == m.logsLimit)
  {
    SaveLogKeepsIds(m, log, true);
    if |m.records| == m.logsLimit {
      var first := FetchAllLogs(m, true)[0];
      var k :| 0 <= k < |m.records| && m.records[k] == first;
      RemoveByIdExactlyOne(m.records, k);
    }
  }

  /** A saved record is read back by the next successful fetch, with the
      log's date, message and level. */
  lemma SaveLogThenFetch(m: Manager, log: V.Value, fetchSucceeds: bool)
    requires SaveLog(m, log, fetchSucceeds).Success?
    ensures var fetched := FetchAllLogs(SaveLog(m, log, fetchSucceeds).value, true);
            exists e :: e in fetched && e.creationDate == log.creationDate
              && e.message == log.message && V.LevelFromRaw(e.logLevel) == Some(log.level)
  {
    var m' := SaveLog(m, log, fetchSucceeds).value;
    var e := NewEntity(m, log);
    assert e in multiset(m'.records);
    assert e in multiset(FetchAllLogs(m', true));
  }

  /** A failed fetch in `saveLog` reads as an empty store, so no record is
      evicted: a store at its limit grows past it. */
  lemma FailedFetchSkipsEviction(m: Manager, log: V.Value)
    requires 0 < m.logsLimit <= |m.records|
    ensures SaveLog(m, log, false).Success?
    ensures |SaveLog(m, log, false).value.records| == |m.records| + 1 > m.logsLimit
  {
  }

  /** A series of `saveLog` calls, each with a working fetch; the first trap
      ends it. */
  function SaveAll(m: Manager, logs: seq<V.Value>): Result<Manager, Fault>
    decreases |logs|
  {
    if logs == [] then Success(m)
    else
      match SaveLog(m, logs[0], true)
      case Failure(f) => Failure(f)
      case Success(m') => SaveAll(m', logs[1..])
  }

  /** From a store within a positive capacity, any series of saves succeeds
      and leaves min(count + saves, limit) records: the store fills up to
      its limit and then stays there. */
  lemma {:induction false} SaveAllCount(m: Manager, logs: seq<V.Value>)
    requires 0 < m.logsLimit && |m.records| <= m.logsLimit && UniqueIds(m)
    ensures SaveAll(m, logs).Success?
    ensures |SaveAll(m, logs).value.records| == V.Min(|m.records| + |logs|, m.logsLimit)
    ensures UniqueIds(SaveAll(m, logs).value)
    decreases |logs|
  {
    if logs != [] {
      SaveLogKeepsCapacity(m, logs[0]);
      SaveAllCount(SaveLog(m, logs[0], true).value, logs[1..]);
    }
  }

  ghost predicate StrictlyIncreasingDates(xs: seq<Entity>)
  {
    forall i, j :: 0 <= i < j < |xs| ==> xs[i].creationDate < xs[j].creationDate
  }

  /** In a store with strictly increasing dates, the earliest record is the
      first one. */
  lemma {:induction false} EarliestOfIncreasing(xs: seq<Entity>, e: Entity)
    requires StrictlyIncreasingDates(xs) && IsEarliest(e, xs)
    ensures |xs| > 0 && e == xs[0]
  {
    var k :| 0 <= k < |xs| && xs[k] == e;
    assert xs[0] in xs;
  }

  /** A full store of strictly increasing dates that receives a log, of any
      date, loses its first record and gains the new one at the end, keeping
      its size. */
  lemma {:induction false} SaveLogEvictsOldest(m: Manager, log: V.Value)
    requires 0 < m.logsLimit == |m.records| && UniqueIds(m)
    requires StrictlyIncreasingDates(m.records)
    ensures SaveLog(m, log, true).Success?
    ensures SaveLog(m, log, true).value.records == m.records[1..] + [NewEntity(m, log)]
    ensures m.records[0] !in SaveLog(m, log, true).value.records
  {
    var first := FetchAllLogs(m, true)[0];
    SortedHeadIsEarliest(m.records, FetchAllLogs(m, true));
    EarliestOfIncreasing(m.records, first);
    RemoveByIdExactlyOne(m.records, 0);
    assert m.records[0].id < m.nextId;
    assert m.records[..0] + m.records[1..] == m.records[1..];
  }

  /** `deleteFirstLog` on a non-empty store with unique IDs removes exactly
      one earliest record and keeps all others in their order. */
  lemma {:induction false} DeleteFirstLogRemovesEarliest(m: Manager)
    requires m.records != [] && UniqueIds(m)
    ensures DeleteFirstLog(m).Success?
    ensures exists k :: 0 <= k < |m.records| && IsEarliest(m.records[k], m.records)
              && DeleteFirstLog(m).value.records == m.records[..k] + m.records[k + 1..]
  {
    var logs := SortByDate(m.records);
    SortedHeadIsEarliest(m.records, logs);
    var k :| 0 <= k < |m.records| && m.records[k] == logs[0];
    RemoveByIdExactlyOne(m.records, k);
  }

  /** With strictly increasing dates, `deleteFirstLog` leaves exactly the
      records after the first, in order. */
  lemma {:induction false} DeleteFirstLogOfIncreasing(m: Manager)
    requires m.records != [] && UniqueIds(m) && StrictlyIncreasingDates(m.records)
    ensures DeleteFirstLog(m).Success?
    ensures DeleteFirstLog(m).value.records == m.records[1..]
  {
    var logs := SortByDate(m.records);
    SortedHeadIsEarliest(m.records, logs);
    EarliestOfIncreasing(m.records, logs[0]);
    assert DeleteFirstLog(m) == Success(DeleteLog(m, m.records[0]));
    RemoveByIdExactlyOne(m.records, 0);
    assert m.records[..0] + m.records[1..] == m.records[1..];
  }

  /** A save with either fetch outcome keeps IDs unique. */
  lemma {:induction false} SaveLogKeepsIds(m: Manager, log: V.Value, fetchSucceeds: bool)
    requires UniqueIds(m)
    ensures SaveLog(m, log, fetchSucceeds).Success? ==> UniqueIds(SaveLog(m, log, fetchSucceeds).value)
  {
    var r := SaveLog(m, log, fetchSucceeds);
    var e := NewEntity(m, log);
    if r.Success? {
      if fetchSucceeds && |m.records| >= m.logsLimit {
        var first := FetchAllLogs(m, true)[0];
        var k :| 0 <= k < |m.records| && m.records[k] == first;
        RemoveByIdExactlyOne(m.records, k);
        RemoveAtKeepsIds(m.records, k, m.nextId);
        AppendFreshKeepsIds(m.records[..k] + m.records[k + 1..], e);
      } else {
        AppendFreshKeepsIds(m.records, e);
      }
    }
  }

  /** Deleting a record keeps IDs unique. */
  lemma {:induction false} DeleteLogKeepsIds(m: Manager, log: Entity)
    requires UniqueIds(m)
    ensures UniqueIds(DeleteLog(m, log))
  {
    if k :| 0 <= k < |m.records| && m.records[k].id == log.id {
      RemoveAtKeepsIds(m.records, k, m.nextId);
    }
  }

  /** Deleting the first record keeps IDs unique. */
  lemma {:induction false} DeleteFirstLogKeepsIds(m: Manager)
    requires UniqueIds(m)
    ensures DeleteFirstLog(m).Success? ==> UniqueIds(DeleteFirstLog(m).value)
  {
    if m.records != [] {
      DeleteLogKeepsIds(m, SortByDate(m.records)[0]);
    }
  }

  /** Sorting an already date-sorted sequence leaves it as it is. */
  lemma {:induction false} SortByDateOfSorted(xs: seq<Entity>)
    requires SortedByDate(xs)
    ensures SortByDate(xs) == xs
  {
    if xs != [] {
      SortByDateOfSorted(xs[1..]);
      assert xs == [xs[0]] + xs[1..];
    }
  }

  /** A full store of strictly increasing dates that receives a log dated
      after all its records is then fetched as its records after the first,
      followed by the new one. */
  lemma {:induction false} SaveLaterLogFetchOrder(m: Manager, log: V.Value)
    requires 0 < m.logsLimit == |m.records| && UniqueIds(m)
    requires StrictlyIncreasingDates(m.records)
    requires forall i :: 0 <= i < |m.records| ==> m.records[i].creationDate < log.creationDate
    ensures SaveLog(m, log, true).Success?
    ensures FetchAllLogs(SaveLog(m, log, true).value, true) == m.records[1..] + [NewEntity(m, log)]
  {
    SaveLogEvictsOldest(m, log);
    var xs := m.records[1..] + [NewEntity(m, log)];
    assert SortedByDate(xs) by {
      forall i, j | 0 <= i < j < |xs|
        ensures xs[i].creationDate <= xs[j].creationDate
      {
        assert xs[i] == m.records[i + 1];
        if j < |xs| - 1 {
          assert xs[j] == m.records[j + 1];
        }
      }
    }
    SortByDateOfSorted(xs);
  }
}
