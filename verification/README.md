# Block maker correlation caches

This project models the in-memory state of the btcpool block maker
(`BlockMaker`). The block maker correlates three event streams: block
templates ("raw GBTs"), stratum jobs built from those templates, and solved
shares that name a job. The model covers the three pieces of state that do
this correlation and the resolution step a solved share goes through:

- **Template cache** (`RawGbtCache`). A queue of template hashes in insertion
  order (`rawGbtQ_`) sits beside a map from the same hashes to the
  template's transactions (`rawGbtMap_`). The cache is bounded by
  `kMaxRawGbtNum_` and evicts oldest-first on `insertRawGbt`. The invariant
  `Valid` says the cache is within capacity, holds no duplicate hash, and
  its queue and map key set agree.
- **Job index** (`JobIndex`). A map from 64-bit job id to template hash
  (`jobId2GbtHash_`), bounded by `kMaxStratumJobNum_`.
- **Endpoint registry** (`Bitcoinds`). The append-only list of bitcoind RPC
  address/credential pairs (`bitcoindRpcUri_`) that `addBitcoind` extends.
- **Block maker state** (`BlockMaker`). The three pieces together, with the
  lookup chain a solved share goes through: job id → template hash →
  transactions. Either lookup can miss.

In btcpool's `BlockMaker` the template cache is guarded by `rawGbtLock_` and the job
index by `jobIdMapLock_`; the endpoint list has no lock and is extended only
by `addBitcoind`. Each template insert, job insert and endpoint registration
is modelled as one atomic step on an immutable value. Resolution of a solved
share reads both caches; the model reads them from one snapshot (see
"## Left out"). `uint256` is the type
parameter `H`, a transaction reference is the type parameter `Tx`, and
`size_t` capacities are unbounded naturals. Job ids are the integers
below 2^64.

Modelling assumptions. `BlockMaker.h` declares these operations without
fixing the following behaviours, so they are chosen here, not taken from the
code:
- A cache of capacity 0 keeps nothing.
- Template insertion requires a hash that is not already cached:
  `insertRawGbt` is declared without fixing what a duplicate hash does.
- A re-delivered job id keeps the job index's key set unchanged. Its hash
  is either kept or overwritten; the declaration of `jobId2GbtHash_` leaves
  this open, so the relational model allows both and `JobIndex.Insert`
  overwrites.
- When the job index is full it evicts the smallest job id already indexed,
  and does so BEFORE recording the new job, so the new job is never the one
  evicted. The smallest id is the front of the `std::map`, which orders its
  keys ascending. Trimming the front after recording would differ: with
  capacity 1, index `{5 ↦ h0}` and new job 3, it would drop job 3 itself.
- A definition's node list is registered by calling `addBitcoind` once per
  node, in order.

## Model

| member | source | states |
|---|---|---|
| RawGbtCache.Empty | src/BlockMaker.h:64-68 | A new cache of any capacity satisfies the cache invariant and holds no template. |
| RawGbtCache.RetainedWithinCapacity | src/BlockMaker.h:64-68 | In a valid cache the number of templates in the map equals the queue length, which is at most `kMaxRawGbtNum_`. |
| RawGbtCache.Insert | src/BlockMaker.h:90-91 | `insertRawGbt` of a fresh hash keeps the invariant. The queue becomes the newest `capacity` hashes of the old queue plus the new one. The new hash maps to its transactions exactly when the capacity is positive. When the cache was full, the front (oldest) hash is gone from both queue and map. Every other surviving entry keeps its transactions. |
| RawGbtCache.Lookup | src/BlockMaker.h:65-68 | In a valid cache a lookup succeeds exactly for the hashes in the queue, and it returns the mapped transactions. |
| RawGbtCache.InsertAll | src/BlockMaker.h:90-91 | Any stream of fresh templates inserted one at a time leaves a valid cache of unchanged capacity. |
| RawGbtCache.InsertAllQueue | src/BlockMaker.h:64-66 | After any stream of fresh inserts, the queue is exactly the newest `capacity` hashes of the whole insertion history, oldest first. |
| RawGbtCache.InsertAllTxs | src/BlockMaker.h:66-68 | After any stream of fresh inserts, only earlier entries and streamed hashes remain. Surviving earlier entries are unchanged. Each surviving streamed hash maps to the transactions it was inserted with. |
| RawGbtCache.FirstKEvicted | src/BlockMaker.h:64-68 | Inserting C+k templates with distinct hashes into an empty cache of capacity C leaves the first k hashes not found. Each of the last C resolves to its own transactions. |
| JobIndex.Empty | src/BlockMaker.h:71-73 | A new job index of any capacity is within its bound and holds no job. |
| JobIndex.SmallestJobId | src/BlockMaker.h:73 | Returns a member of a non-empty job-id set that is no larger than any other member. This is the front of the ordered map. |
| JobIndex.Insert | src/BlockMaker.h:70-73 | Recording any job, new or re-delivered, keeps the index within `kMaxStratumJobNum_`. A re-delivered id leaves the key set unchanged. A new job is added when there is room; when the index is full the smallest id is evicted first. The job maps to its template hash exactly when the capacity is positive. |
| JobIndex.JobInsertedKeepsBound | src/BlockMaker.h:71-73 | Any outcome allowed for a job insertion, new or re-delivered id, is within the bound. A new job maps to its template; a re-delivered id leaves the key set unchanged. Every other job that remains keeps its template hash. With room to spare, no job is lost. |
| JobIndex.LookupAfterJobInserted | src/BlockMaker.h:71-73 | After a new job is recorded, looking it up yields its template hash when the capacity is positive (and nothing at capacity 0); a re-delivered job still resolves. Every other job that still resolves resolves to the same hash as before. While there is room, no job that resolved before is lost. |
| Bitcoinds.AddBitcoind | src/BlockMaker.h:149 | `addBitcoind` appends exactly one `(address, credentials)` pair at the end and leaves the earlier entries as they were. |
| Bitcoinds.AddNodesAppends | src/BlockMaker.h:43-55 | Registering a definition's nodes keeps the earlier endpoints as a prefix, then adds exactly one endpoint per node, in order. |
| BlockMaker.Init | src/BlockMaker.h:58-73 | A fresh block maker has empty caches with the configured capacities and no endpoints, and satisfies both invariants. |
| BlockMaker.ResolveSolvedShare | src/BlockMaker.h:107 | A solved share resolves only when its job id is indexed and that job's template hash is cached. It then yields that hash and those transactions. A missing job id is reported as `UnknownJobId` and a missing template as `UnknownGbtHash`. In a valid state, resolution of an indexed job succeeds exactly when its hash is in the template queue. |
| BlockMaker.InsertRawGbt | src/BlockMaker.h:90-91 | A template insert keeps both invariants and changes neither the job index nor the endpoints. The new template is then found whenever the capacity is positive. |
| BlockMaker.ConsumeStratumJob | src/BlockMaker.h:105 | Recording any job, including a re-delivered one, is a valid job insertion that keeps both invariants, makes the job resolve to `h` when the capacity is positive (a re-delivered id is overwritten, as `JobIndex.Insert` assumes), and changes neither the template cache nor the endpoints. |
| BlockMaker.AddBitcoind | src/BlockMaker.h:84-86 | Registering a daemon appends exactly that endpoint, keeps the earlier ones as a prefix, and changes neither cache. |
| BlockMaker.ResolveAfterPublish | src/BlockMaker.h:107 | Publishing a template and then a job built from it makes a share for that job resolve to exactly that template's transactions. This holds under the assumed eviction order (an already-indexed job is evicted before the new one is recorded). |
| BlockMaker.EvictedTemplateIsNotFound | src/BlockMaker.h:66-68 | Suppose the cache is full and a job's template is the oldest. That job resolves now, and after the next template insert it resolves to `UnknownGbtHash`. |
| BlockMaker.InsertKeepsOtherResolutions | src/BlockMaker.h:67-68 | A template insert leaves every resolvable job resolving to the same template and transactions, unless that template was the one evicted. |

## Left out

- Kafka consumers and their threads (`kafkaConsumer*`, `threadConsume*`, `runThreadConsume*`, `consume*`): message-queue I/O. Their effect on the state is modelled by `InsertRawGbt`, `ConsumeStratumJob` and `ResolveSolvedShare`.
- `running_`, `rawGbtLock_`, `jobIdMapLock_`: these exist only for concurrency. Each operation is modelled as atomic.
- Block submission (`submitBlockNonBlocking`, `_submitBlockThread`, the namecoin and RSK submit routines, `checkBitcoinds`): fire-and-forget threads making RPC calls to remote daemons.
- RSK throttle state (`lastSubmittedBlockTime`, `submittedRskBlocks`, `submitToRskNode`): `BlockMaker.h` declares only these fields; the throttling rule in `submitToRskNode` is not modelled.
- MySQL persistence (`poolDB_`, `saveBlockToDBNonBlocking`, `_saveBlockToDBThread`): external store I/O.
- Message decoding (`addRawgbt` and the payload parsing in `consume*`): this depends on JSON, hex and Bitcoin serialization libraries. Those libraries are not part of this model, so hashes and transactions are abstract types.
- Block assembly from resolved transactions: done with the serialization library, which is not part of this model.
- `BlockMakerEth`, `init`, `run`, `stop`, the constructor's Kafka and MySQL arguments: `BlockMaker.h` declares them without a body, and they set up threads and connections rather than the caches, so they are not modelled.
- RawGbtCache.Insert: requires the hash to be absent, because `insertRawGbt` is declared without fixing whether a duplicate hash is ignored or overwrites.
- BlockMaker.InsertRawGbt: requires the hash to be absent from the template cache, for the same reason as `RawGbtCache.Insert`, which it calls.
- JobIndex.Insert: overwrites a re-delivered job id, one of the two outcomes the declaration leaves open. Its eviction rule is a modelling assumption, not a fact of `jobId2GbtHash_`: the smallest job id already indexed is evicted before the new job is recorded, so the new job always survives in an index of positive capacity.
- RawGbtCache.InsertAll: covers only streams whose hashes are all distinct, so a template that comes back after being evicted is covered by `Insert` alone, not by the stream lemmas.
- BlockMaker.ResolveSolvedShare: reads the job index and the template cache from one snapshot. In btcpool's `BlockMaker` the two lookups take two different locks, so a template insert can land between them and evict the template. The model does not represent that interleaving. Its effect equals resolving against the state after the insert, which `EvictedTemplateIsNotFound` covers.
- Template transactions: `rawGbtMap_` stores each template's transactions behind a shared, possibly null `shared_ptr<vector<CTransactionRef>>`. The model stores an immutable sequence instead. Nothing here depends on that, because the cache only stores, evicts and hands back the pointer and never reads or mutates the vector.
