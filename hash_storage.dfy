/** The in-memory hash record store of the hello-world API
    (services/hello-world-api/Services/HashStorageService.cs) and the record it
    keeps (services/hello-world-api/Models/HashRecord.cs). The store is a list
    that only ever grows; lookups are LINQ queries over it. */
module HashStorage {
  import opened Basics

  /** A stored record. CreatedAt is a DateTime in the source, taken here as
      its tick count: only its order matters. */
  datatype HashRecord = HashRecord(
    businessId: string,
    matterId: string,
    version: string,
    hash: string,
    createdAt: int)

  /** The LINQ FirstOrDefault query on the hash: the earliest record with that
      hash, or none when no record has it. */
  function FirstWithHash(records: seq<HashRecord>, hash: string): (r: Option<HashRecord>)
    ensures r.None? <==> forall i :: 0 <= i < |records| ==> records[i].hash != hash
    ensures r.Some? ==>
              exists i :: 0 <= i < |records| && records[i] == r.value && r.value.hash == hash &&
                          forall j :: 0 <= j < i ==> records[j].hash != hash
  {
    if records == [] then None
    else if records[0].hash == hash then Some(records[0])
    else
      var r := FirstWithHash(records[1..], hash);
      assert r.Some? ==> exists i :: 0 < i < |records| && records[i] == r.value && r.value.hash == hash &&
                          forall j :: 0 <= j < i ==> records[j].hash != hash by {
        if r.Some? {
          var i :| 0 <= i < |records[1..]| && records[1..][i] == r.value && r.value.hash == hash &&
                   forall j :: 0 <= j < i ==> records[1..][j].hash != hash;
          assert records[i + 1] == r.value;
          assert forall j :: 0 <= j < i + 1 ==> records[j].hash != hash by {
            forall j | 0 <= j < i + 1 ensures records[j].hash != hash {
              if j > 0 {
                assert records[j] == records[1..][j - 1];
              }
            }
          }
        }
      }
      r
  }

  /** The LINQ Where filter on the business id, keeping the stored order. */
  function WithBusinessId(records: seq<HashRecord>, businessId: string): (r: seq<HashRecord>)
    ensures forall x :: multiset(r)[x] == if x.businessId == businessId then multiset(records)[x] else 0
  {
    if records == [] then []
    else
      var rest := WithBusinessId(records[1..], businessId);
      assert records == [records[0]] + records[1..];
      if records[0].businessId == businessId then [records[0]] + rest else rest
  }

  /** Filtering distributes over concatenation, so the filter keeps the
      matching records in their input order. */
  lemma {:induction false} WithBusinessIdAppend(a: seq<HashRecord>, b: seq<HashRecord>, businessId: string)
    ensures WithBusinessId(a + b, businessId) == WithBusinessId(a, businessId) + WithBusinessId(b, businessId)
  {
    if a == [] {
      assert a + b == b;
    } else {
      assert (a + b)[1..] == a[1..] + b;
      WithBusinessIdAppend(a[1..], b, businessId);
    }
  }

  /** The records created at tick `t`, in their order. */
  function WithCreatedAt(records: seq<HashRecord>, t: int): seq<HashRecord> {
    if records == [] then []
    else if records[0].createdAt == t then [records[0]] + WithCreatedAt(records[1..], t)
    else WithCreatedAt(records[1..], t)
  }

  /** Non-increasing CreatedAt. */
  predicate NewestFirst(records: seq<HashRecord>) {
    forall i, j :: 0 <= i < j < |records| ==> records[i].createdAt >= records[j].createdAt
  }

  /** One step of the stable descending sort: `x` goes in front of the first
      record that is not newer than it. */
  function InsertNewestFirst(x: HashRecord, sorted: seq<HashRecord>): (r: seq<HashRecord>)
    requires NewestFirst(sorted)
    ensures NewestFirst(r)
    ensures multiset(r) == multiset(sorted) + multiset{x}
    ensures r[0] == x || (sorted != [] && r[0] == sorted[0])
  {
    if sorted == [] || sorted[0].createdAt <= x.createdAt then
      ConsNewestFirst(x, sorted);
      [x] + sorted
    else
      var rest := InsertNewestFirst(x, sorted[1..]);
      assert multiset(sorted) == multiset{sorted[0]} + multiset(sorted[1..]) by {
        assert sorted == [sorted[0]] + sorted[1..];
      }
      ConsNewestFirst(sorted[0], rest);
      [sorted[0]] + rest
  }

  /** A record at least as new as the head of a newest-first list can go in
      front of it. */
  lemma ConsNewestFirst(x: HashRecord, sorted: seq<HashRecord>)
    requires NewestFirst(sorted)
    requires sorted == [] || sorted[0].createdAt <= x.createdAt
    ensures NewestFirst([x] + sorted)
  {
    var r := [x] + sorted;
    forall i, j | 0 <= i < j < |r| ensures r[i].createdAt >= r[j].createdAt {
      if i == 0 && j > 1 {
        assert sorted[0].createdAt >= sorted[j - 1].createdAt;
      }
    }
  }

  /** LINQ OrderByDescending on CreatedAt: a stable sort, newest first. */
  function OrderByCreatedAtDescending(records: seq<HashRecord>): (r: seq<HashRecord>)
    ensures NewestFirst(r)
    ensures multiset(r) == multiset(records)
  {
    if records == [] then []
    else
      assert records == [records[0]] + records[1..];
      InsertNewestFirst(records[0], OrderByCreatedAtDescending(records[1..]))
  }

  /** Inserting `x` keeps every other timestamp's records in order and puts
      `x` before the records that share its timestamp. */
  lemma {:induction false} InsertKeepsTies(x: HashRecord, sorted: seq<HashRecord>, t: int)
    requires NewestFirst(sorted)
    ensures WithCreatedAt(InsertNewestFirst(x, sorted), t) ==
            (if x.createdAt == t then [x] else []) + WithCreatedAt(sorted, t)
  {
    if sorted == [] || sorted[0].createdAt <= x.createdAt {
      var r := [x] + sorted;
      assert r[1..] == sorted;
    } else {
      InsertKeepsTies(x, sorted[1..], t);
      var r := InsertNewestFirst(x, sorted);
      assert r[1..] == InsertNewestFirst(x, sorted[1..]);
    }
  }

  /** The sort is stable: records with equal CreatedAt keep their insertion
      order. */
  lemma {:induction false} SortIsStable(records: seq<HashRecord>, t: int)
    ensures WithCreatedAt(OrderByCreatedAtDescending(records), t) == WithCreatedAt(records, t)
  {
    if records != [] {
      SortIsStable(records[1..], t);
      InsertKeepsTies(records[0], OrderByCreatedAtDescending(records[1..]), t);
    }
  }

  /** The two filters commute. */
  lemma {:induction false} FiltersCommute(records: seq<HashRecord>, businessId: string, t: int)
    ensures WithCreatedAt(WithBusinessId(records, businessId), t) == WithBusinessId(WithCreatedAt(records, t), businessId)
  {
    if records != [] {
      FiltersCommute(records[1..], businessId, t);
    }
  }

  /** Appending a record never changes an existing first match, and it becomes
      the first match only when none existed. */
  lemma {:induction false} AppendKeepsFirstMatch(records: seq<HashRecord>, record: HashRecord, hash: string)
    ensures FirstWithHash(records, hash).Some? ==>
              FirstWithHash(records + [record], hash) == FirstWithHash(records, hash)
    ensures FirstWithHash(records, hash).None? ==>
              FirstWithHash(records + [record], hash) == (if record.hash == hash then Some(record) else None)
  {
    if records == [] {
      assert records + [record] == [record];
      assert [record][1..] == [];
    } else {
      assert (records + [record])[1..] == records[1..] + [record];
      AppendKeepsFirstMatch(records[1..], record, hash);
    }
  }

  /** HashStorageService: the list `_hashRecords`, appended to by StoreHash
      and read by the two queries. */
  class HashStorageService {
    var records: seq<HashRecord>

    constructor ()
      ensures records == []
    {
      records := [];
    }

    /** StoreHash appends the record at the end; earlier records are kept as
        they are, duplicates included. */
    method StoreHash(record: HashRecord)
      modifies this
      ensures records == old(records) + [record]
      ensures |records| == |old(records)| + 1
      ensures forall h :: old(FirstWithHash(records, h)).Some? ==>
                            FirstWithHash(records, h) == old(FirstWithHash(records, h))
    {
      ghost var before := records;
      records := records + [record];
      forall h | FirstWithHash(before, h).Some?
        ensures FirstWithHash(records, h) == FirstWithHash(before, h)
      {
        AppendKeepsFirstMatch(before, record, h);
      }
    }

    /** FindByHash: the earliest stored record with the hash, or none. */
    function FindByHash(hash: string): (r: Option<HashRecord>)
      reads this
      ensures r.None? <==> forall i :: 0 <= i < |records| ==> records[i].hash != hash
      ensures r.Some? ==>
                exists i :: 0 <= i < |records| && records[i] == r.value && r.value.hash == hash &&
                            forall j :: 0 <= j < i ==> records[j].hash != hash
    {
      FirstWithHash(records, hash)
    }

    /** FindByBusinessId: every stored record with the business id, each as
        often as it was stored, newest first, ties in insertion order. */
    function FindByBusinessId(businessId: string): (r: seq<HashRecord>)
      reads this
      ensures NewestFirst(r)
      ensures forall x :: multiset(r)[x] == if x.businessId == businessId then multiset(records)[x] else 0
      ensures forall t :: WithCreatedAt(r, t) == WithBusinessId(WithCreatedAt(records, t), businessId)
    {
      var matching := WithBusinessId(records, businessId);
      var r := OrderByCreatedAtDescending(matching);
      assert forall t :: WithCreatedAt(r, t) == WithBusinessId(WithCreatedAt(records, t), businessId) by {
        forall t ensures WithCreatedAt(r, t) == WithBusinessId(WithCreatedAt(records, t), businessId) {
          SortIsStable(matching, t);
          FiltersCommute(records, businessId, t);
        }
      }
      r
    }
  }
}
