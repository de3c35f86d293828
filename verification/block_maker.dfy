/** The correlation state of a block maker: the template cache, the job
    index and the bitcoind endpoints, with the resolution a solved share
    goes through (job id to template hash to transactions). Template inserts
    and job inserts each run under their own cache's lock (`rawGbtLock_`, `jobIdMapLock_`), and
    are modelled as one atomic step on an immutable value; resolution reads
    both caches and is modelled as reading one snapshot of the state. */
module BlockMaker {
  import opened Common
  import RawGbtCache
  import JobIndex
  import Bitcoinds

  datatype BlockMaker<H, Tx> = BlockMaker(
    gbts: RawGbtCache.Cache<H, Tx>,
    jobs: JobIndex.Index<H>,
    bitcoinds: seq<Bitcoinds.Endpoint>)

  predicate Valid<H(==), Tx>(bm: BlockMaker<H, Tx>) {
    RawGbtCache.Valid(bm.gbts) && JobIndex.Valid(bm.jobs)
  }

  /** A block maker as constructed: both caches empty, no daemon known. */
  function Init<H(==), Tx>(maxRawGbtNum: nat, maxStratumJobNum: nat): (bm: BlockMaker<H, Tx>)
    ensures Valid(bm)
    ensures bm.gbts.capacity == maxRawGbtNum && bm.jobs.capacity == maxStratumJobNum
    ensures bm.gbts.queue == [] && bm.jobs.gbtHashOf == map[] && bm.bitcoinds == []
  {
    BlockMaker(RawGbtCache.Empty(maxRawGbtNum), JobIndex.Empty(maxStratumJobNum), [])
  }

  /** Why a solved share could not be matched to a template. */
  datatype Miss = UnknownJobId | UnknownGbtHash

  datatype Resolution<H, Tx> = Resolved(gbtHash: H, txs: seq<Tx>) | NotFound(miss: Miss)

  /** The lookup step of `processSolvedShare`: the share's job id gives the
      template hash, the template hash gives the transactions. Either step
      can miss. The block maker itself is not changed by a resolution. */
  function ResolveSolvedShare<H(==), Tx>(bm: BlockMaker<H, Tx>, jobId: JobIndex.JobId): (r: Resolution<H, Tx>)
    ensures r.Resolved? <==> jobId in bm.jobs.gbtHashOf && bm.jobs.gbtHashOf[jobId] in bm.gbts.txs
    ensures r.Resolved? ==> r.gbtHash == bm.jobs.gbtHashOf[jobId] && r.txs == bm.gbts.txs[r.gbtHash]
    ensures r == NotFound(UnknownJobId) <==> jobId !in bm.jobs.gbtHashOf
    ensures Valid(bm) && jobId in bm.jobs.gbtHashOf ==>
      (r.Resolved? <==> bm.jobs.gbtHashOf[jobId] in bm.gbts.queue)
  {
    match JobIndex.Lookup(bm.jobs, jobId)
    case None => NotFound(UnknownJobId)
    case Some(h) =>
      match RawGbtCache.Lookup(bm.gbts, h)
      case None => NotFound(UnknownGbtHash)
      case Some(txs) => Resolved(h, txs)
  }

  /** `insertRawGbt` on the block maker: only the template cache changes. */
  function InsertRawGbt<H(==), Tx>(bm: BlockMaker<H, Tx>, h: H, v: seq<Tx>): (r: BlockMaker<H, Tx>)
    requires Valid(bm)
    requires h !in bm.gbts.txs
    ensures Valid(r)
    ensures r.jobs == bm.jobs && r.bitcoinds == bm.bitcoinds
    ensures RawGbtCache.Lookup(r.gbts, h) == (if bm.gbts.capacity > 0 then Some(v) else None)
  {
    bm.(gbts := RawGbtCache.Insert(bm.gbts, h, v))
  }

  /** The stratum-job consumer recording a job, new or re-delivered: only
      the job index changes. */
  method ConsumeStratumJob<H(==), Tx>(bm: BlockMaker<H, Tx>, jobId: JobIndex.JobId, h: H)
    returns (r: BlockMaker<H, Tx>)
    requires Valid(bm)
    ensures Valid(r)
    ensures JobIndex.JobInserted(bm.jobs, jobId, h, r.jobs)
    ensures JobIndex.Lookup(r.jobs, jobId) == (if bm.jobs.capacity > 0 then Some(h) else None)
    ensures r.gbts == bm.gbts && r.bitcoinds == bm.bitcoinds
  {
    var jobs := JobIndex.Insert(bm.jobs, jobId, h);
    r := bm.(jobs := jobs);
  }

  /** `addBitcoind` on the block maker: only the endpoint list changes. */
  function AddBitcoind<H, Tx>(bm: BlockMaker<H, Tx>, rpcAddress: string, rpcUserpass: string): (r: BlockMaker<H, Tx>)
    ensures r.gbts == bm.gbts && r.jobs == bm.jobs
    ensures |r.bitcoinds| == |bm.bitcoinds| + 1
    ensures r.bitcoinds[..|bm.bitcoinds|] == bm.bitcoinds
    ensures r.bitcoinds[|bm.bitcoinds|] == Bitcoinds.Endpoint(rpcAddress, rpcUserpass)
  {
    bm.(bitcoinds := Bitcoinds.AddBitcoind(bm.bitcoinds, rpcAddress, rpcUserpass))
  }

  /** End to end: a template is published, then a job built from it; a
      solved share for that job resolves to exactly that template's
      transactions, provided both caches can hold anything at all. Under the
      job index's eviction assumption the evicted job is one indexed before,
      never the new one. */
  lemma ResolveAfterPublish<H, Tx>(bm: BlockMaker<H, Tx>, h: H, v: seq<Tx>, jobId: JobIndex.JobId, jobs: JobIndex.Index<H>)
    requires Valid(bm)
    requires h !in bm.gbts.txs && jobId !in bm.jobs.gbtHashOf
    requires bm.gbts.capacity > 0 && bm.jobs.capacity > 0
    requires JobIndex.JobInserted(bm.jobs, jobId, h, jobs)
    ensures ResolveSolvedShare(InsertRawGbt(bm, h, v).(jobs := jobs), jobId) == Resolved(h, v)
  {
  }

  /** A share whose template was evicted is dropped: when the cache is full
      and the template its job refers to is the oldest one, the next
      template insert makes the share resolve to NotFound. */
  lemma EvictedTemplateIsNotFound<H, Tx>(bm: BlockMaker<H, Tx>, jobId: JobIndex.JobId, h: H, v: seq<Tx>)
    requires Valid(bm)
    requires 0 < |bm.gbts.queue| == bm.gbts.capacity
    requires jobId in bm.jobs.gbtHashOf && bm.jobs.gbtHashOf[jobId] == bm.gbts.queue[0]
    requires h !in bm.gbts.txs
    ensures ResolveSolvedShare(bm, jobId).Resolved?
    ensures ResolveSolvedShare(InsertRawGbt(bm, h, v), jobId) == NotFound(UnknownGbtHash)
  {
  }

  /** Inserting a template does not disturb any other resolution: a job
      that resolved before resolves to the same template afterwards unless
      its template was the one evicted. */
  lemma InsertKeepsOtherResolutions<H, Tx>(bm: BlockMaker<H, Tx>, jobId: JobIndex.JobId, h: H, v: seq<Tx>)
    requires Valid(bm)
    requires h !in bm.gbts.txs
    requires ResolveSolvedShare(bm, jobId).Resolved?
    requires |bm.gbts.queue| < bm.gbts.capacity || bm.jobs.gbtHashOf[jobId] != bm.gbts.queue[0]
    ensures ResolveSolvedShare(InsertRawGbt(bm, h, v), jobId) == ResolveSolvedShare(bm, jobId)
  {
  }
}
