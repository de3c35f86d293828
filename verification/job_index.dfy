/** The stratum-job index of a block maker: the map `jobId2GbtHash_` from a
    64-bit job id to the hash of the block template the job was built from,
    bounded by `kMaxStratumJobNum_`. Being a map, it binds each job id to
    exactly one template hash. */
module JobIndex {
  import opened Common

  /** Job ids are `uint64_t`. */
  const JOB_ID_LIMIT: int := 0x1_0000_0000_0000_0000
  type JobId = x: int | 0 <= x < JOB_ID_LIMIT

  datatype Index<H> = Index(capacity: nat, gbtHashOf: map<JobId, H>)

  /** The bound on the number of jobs kept. */
  predicate Valid<H>(idx: Index<H>) {
    |idx.gbtHashOf| <= idx.capacity
  }

  function Empty<H>(capacity: nat): (idx: Index<H>)
    ensures Valid(idx) && idx.capacity == capacity
    ensures forall id: JobId :: id !in idx.gbtHashOf
  {
    Index(capacity, map[])
  }

  /** `k` is the smallest job id in `ids`. */
  predicate IsSmallest(k: JobId, ids: set<JobId>) {
    k in ids && forall j :: j in ids ==> k <= j
  }

  /** Finds the smallest job id of a non-empty set. */
  method SmallestJobId(ids: set<JobId>) returns (k: JobId)
    requires ids != {}
    ensures IsSmallest(k, ids)
  {
    k :| k in ids;
    var rest := ids - {k};
    while rest != {}
      invariant rest <= ids && k in ids
      invariant forall j :: j in ids - rest ==> k <= j
      decreases rest
    {
      var j :| j in rest;
      var seen := ids - rest;
      if j < k {
        k := j;
      }
      rest := rest - {j};
      assert ids - rest == seen + {j};
    }
    assert ids - rest == ids;
  }

  /** `r` is `idx` after recording that job `id` was built from template
      `h`.
      - A job id already indexed (a re-delivered job message) leaves the key
        set as it is: its hash is either kept or overwritten by `h`. The
        declaration of `jobId2GbtHash_` leaves open which, so both outcomes
        are allowed.
      - A new job is always recorded when there is room.
      - When the index is full, the smallest job id already indexed is
        evicted BEFORE the new job is recorded, so the new job itself is
        never the one evicted. The eviction rule and its order are a
        modelling assumption (`jobId2GbtHash_` is a `std::map`, which keeps job ids in
        ascending order, so the smallest id is the one at its front).
      - An index of capacity 0 keeps nothing. */
  ghost predicate JobInserted<H>(idx: Index<H>, id: JobId, h: H, r: Index<H>) {
    && r.capacity == idx.capacity
    && if id in idx.gbtHashOf then
         r == idx || r.gbtHashOf == idx.gbtHashOf[id := h]
       else if |idx.gbtHashOf| < idx.capacity then
         r.gbtHashOf == idx.gbtHashOf[id := h]
       else if idx.capacity == 0 then
         r == idx
       else
         exists k: JobId :: IsSmallest(k, idx.gbtHashOf.Keys) && r.gbtHashOf == (idx.gbtHashOf - {k})[id := h]
  }

  /** Records a stratum job. A re-delivered job id is rebound to `h` (one of
      the two outcomes `JobInserted` allows). */
  method Insert<H(==)>(idx: Index<H>, id: JobId, h: H) returns (r: Index<H>)
    requires Valid(idx)
    ensures JobInserted(idx, id, h, r)
    ensures Valid(r)
    ensures id in r.gbtHashOf <==> idx.capacity > 0
    ensures id in r.gbtHashOf ==> r.gbtHashOf[id] == h
    ensures id in idx.gbtHashOf ==> r.gbtHashOf.Keys == idx.gbtHashOf.Keys
    ensures id !in idx.gbtHashOf ==>
      |r.gbtHashOf| == (if idx.capacity == 0 then 0 else |idx.gbtHashOf| + (if |idx.gbtHashOf| < idx.capacity then 1 else 0))
  {
    if id in idx.gbtHashOf {
      r := Index(idx.capacity, idx.gbtHashOf[id := h]);
      assert r.gbtHashOf.Keys == idx.gbtHashOf.Keys;
    } else if |idx.gbtHashOf| < idx.capacity {
      r := Index(idx.capacity, idx.gbtHashOf[id := h]);
    } else if idx.capacity == 0 {
      r := idx;
    } else {
      var oldest := SmallestJobId(idx.gbtHashOf.Keys);
      var kept := idx.gbtHashOf - {oldest};
      assert kept.Keys == idx.gbtHashOf.Keys - {oldest};
      r := Index(idx.capacity, kept[id := h]);
    }
  }

  /** Whatever job is recorded, new or re-delivered, the bound holds
      afterwards. A new job resolves to its template, a re-delivered one
      stays indexed, and every other job that was not evicted keeps its
      template hash. */
  lemma JobInsertedKeepsBound<H>(idx: Index<H>, id: JobId, h: H, r: Index<H>)
    requires Valid(idx)
    requires JobInserted(idx, id, h, r)
    ensures Valid(r)
    ensures id !in idx.gbtHashOf && idx.capacity > 0 ==> id in r.gbtHashOf && r.gbtHashOf[id] == h
    ensures id in idx.gbtHashOf ==> r.gbtHashOf.Keys == idx.gbtHashOf.Keys
    ensures forall j :: j in r.gbtHashOf && j != id ==> j in idx.gbtHashOf && r.gbtHashOf[j] == idx.gbtHashOf[j]
    ensures |idx.gbtHashOf| < idx.capacity ==> idx.gbtHashOf.Keys <= r.gbtHashOf.Keys
  {
    if id in idx.gbtHashOf {
      assert idx.gbtHashOf[id := h].Keys == idx.gbtHashOf.Keys;
    } else if |idx.gbtHashOf| >= idx.capacity && idx.capacity > 0 {
      var k: JobId :| IsSmallest(k, idx.gbtHashOf.Keys) && r.gbtHashOf == (idx.gbtHashOf - {k})[id := h];
      assert (idx.gbtHashOf - {k}).Keys == idx.gbtHashOf.Keys - {k};
    }
  }

  /** The same facts seen through `Lookup`: a new job resolves to its
      template when the index can hold anything (and to nothing at capacity
      0), a re-delivered job still resolves, no other job changes its
      answer, and while there is room no job is lost. */
  lemma LookupAfterJobInserted<H>(idx: Index<H>, id: JobId, h: H, r: Index<H>)
    requires Valid(idx)
    requires JobInserted(idx, id, h, r)
    ensures id !in idx.gbtHashOf && idx.capacity > 0 ==> Lookup(r, id) == Some(h)
    ensures idx.capacity == 0 ==> Lookup(r, id) == None
    ensures id in idx.gbtHashOf ==> Lookup(r, id).Some?
    ensures forall j :: j != id && Lookup(r, j).Some? ==> Lookup(r, j) == Lookup(idx, j)
    ensures |idx.gbtHashOf| < idx.capacity ==>
      forall j :: Lookup(idx, j).Some? ==> Lookup(r, j).Some?
    ensures |idx.gbtHashOf| < idx.capacity ==>
      forall j :: j != id && Lookup(idx, j).Some? ==> Lookup(r, j) == Lookup(idx, j)
  {
    JobInsertedKeepsBound(idx, id, h, r);
  }

  /** The template hash a job id was issued for, if the job is still known. */
  function Lookup<H>(idx: Index<H>, id: JobId): Option<H>
  {
    if id in idx.gbtHashOf then Some(idx.gbtHashOf[id]) else None
  }
}
