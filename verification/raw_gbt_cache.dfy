/** The raw block-template cache of a block maker: a queue of template
    hashes in insertion order (the deque `rawGbtQ_`) beside a map from the
    same hashes to the template's transactions (the map `rawGbtMap_`),
    bounded by `kMaxRawGbtNum_` and evicted oldest-first. The hash type `H`
    stands for `uint256` and `Tx` for a transaction reference. */
module RawGbtCache {
  import opened Common

  datatype Cache<H, Tx> = Cache(capacity: nat, queue: seq<H>, txs: map<H, seq<Tx>>)

  /** One message of the template stream: a template hash and its transactions. */
  datatype RawGbt<H, Tx> = RawGbt(hash: H, txs: seq<Tx>)

  /** The cache invariant: within capacity, no hash queued twice, and the
      queue and the map's key set hold exactly the same hashes. */
  predicate Valid<H(==), Tx>(c: Cache<H, Tx>) {
    && |c.queue| <= c.capacity
    && Distinct(c.queue)
    && (forall h :: h in c.txs ==> h in c.queue)
    && (forall i :: 0 <= i < |c.queue| ==> c.queue[i] in c.txs)
  }

  function Empty<H(==), Tx>(capacity: nat): (c: Cache<H, Tx>)
    ensures Valid(c) && c.capacity == capacity
    ensures forall h :: h !in c.txs
  {
    Cache(capacity, [], map[])
  }

  /** The number of retained templates never exceeds the capacity. */
  lemma RetainedWithinCapacity<H, Tx>(c: Cache<H, Tx>)
    requires Valid(c)
    ensures |c.txs| == |c.queue| <= c.capacity
  {
    DistinctCardinality(c.queue);
    assert c.txs.Keys == set h | h in c.queue;
  }

  /** Stores the template `h` with transactions `v`. When the cache is full
      the oldest hash (the queue's front) is evicted from both the queue and
      the map. A cache of capacity 0 keeps nothing. */
  function Insert<H(==), Tx>(c: Cache<H, Tx>, h: H, v: seq<Tx>): (r: Cache<H, Tx>)
    requires Valid(c)
    requires h !in c.txs
    ensures Valid(r) && r.capacity == c.capacity
    ensures |c.queue| < c.capacity ==> r.queue == c.queue + [h]
    ensures 0 < |c.queue| == c.capacity ==> r.queue == c.queue[1..] + [h]
    ensures c.capacity == 0 ==> r.queue == []
    ensures r.txs.Keys <= c.txs.Keys + {h}
    ensures h in r.txs <==> c.capacity > 0
    ensures h in r.txs ==> r.txs[h] == v
    ensures |c.queue| < c.capacity ==> r.txs.Keys == c.txs.Keys + {h}
    ensures 0 < |c.queue| == c.capacity ==>
      && c.queue[0] !in r.txs
      && r.txs.Keys == c.txs.Keys - {c.queue[0]} + {h}
    ensures forall k :: k in r.txs && k != h ==> k in c.txs && r.txs[k] == c.txs[k]
  {
    if |c.queue| < c.capacity then
      Cache(c.capacity, c.queue + [h], c.txs[h := v])
    else if c.capacity == 0 then
      c
    else
      var oldest := c.queue[0];
      var q := c.queue[1..] + [h];
      assert Distinct(q) by {
        forall i, j | 0 <= i < j < |q| ensures q[i] != q[j] {
          if j < |q| - 1 {
            assert q[i] == c.queue[i + 1] && q[j] == c.queue[j + 1];
          }
        }
      }
      Cache(c.capacity, q, (c.txs - {oldest})[h := v])
  }

  /** `lookup` on the map: the transactions of a retained template. */
  function Lookup<H(==), Tx>(c: Cache<H, Tx>, h: H): (r: Option<seq<Tx>>)
    ensures Valid(c) ==> (r.Some? <==> h in c.queue)
    ensures r.Some? ==> h in c.txs && r.value == c.txs[h]
  {
    if h in c.txs then Some(c.txs[h]) else None
  }

  /** The hashes of a batch of templates, in order. */
  function Hashes<H, Tx>(b: seq<RawGbt<H, Tx>>): (hs: seq<H>)
    ensures |hs| == |b|
    ensures forall i :: 0 <= i < |b| ==> hs[i] == b[i].hash
  {
    if b == [] then [] else [b[0].hash] + Hashes(b[1..])
  }

  /** No two templates of `b` share a hash. */
  predicate DistinctHashes<H(==), Tx>(b: seq<RawGbt<H, Tx>>) {
    forall i, j :: 0 <= i < j < |b| ==> b[i].hash != b[j].hash
  }

  /** Every template of `b` carries a hash not seen before: none repeats
      inside `b` and none is already cached. */
  predicate Fresh<H(==), Tx>(c: Cache<H, Tx>, b: seq<RawGbt<H, Tx>>) {
    && DistinctHashes(b)
    && forall i :: 0 <= i < |b| ==> b[i].hash !in c.txs
  }

  /** Inserting the first template of a fresh batch leaves the remainder
      fresh. */
  lemma FreshAfterInsert<H, Tx>(c: Cache<H, Tx>, c1: Cache<H, Tx>, b: seq<RawGbt<H, Tx>>)
    requires Fresh(c, b)
    requires b != []
    requires c1.txs.Keys <= c.txs.Keys + {b[0].hash}
    ensures Fresh(c1, b[1..])
  {
  }

  /** In a fresh batch the first hash does not recur later, and no later
      hash is already cached. */
  lemma FreshTail<H, Tx>(c: Cache<H, Tx>, b: seq<RawGbt<H, Tx>>)
    requires Fresh(c, b)
    requires b != []
    ensures b[0].hash !in Hashes(b[1..])
    ensures forall h :: h in Hashes(b[1..]) ==> h !in c.txs
  {
  }

  /** The template-stream consumer: each message inserted in arrival order.
      `Fresh` asks every hash of the stream to be distinct, so a stream in
      which a template comes back after being evicted is not covered here,
      although a single `Insert` accepts such a hash (it only needs the
      hash to be absent from the cache at that moment). */
  function InsertAll<H(==), Tx>(c: Cache<H, Tx>, b: seq<RawGbt<H, Tx>>): (r: Cache<H, Tx>)
    requires Valid(c)
    requires Fresh(c, b)
    ensures Valid(r) && r.capacity == c.capacity
    decreases |b|
  {
    if b == [] then c
    else
      var c1 := Insert(c, b[0].hash, b[0].txs);
      FreshAfterInsert(c, c1, b);
      InsertAll(c1, b[1..])
  }

  /** After any batch of fresh inserts the queue holds exactly the newest
      `capacity` hashes of the whole insertion history, oldest first. */
  lemma {:induction false} InsertAllQueue<H, Tx>(c: Cache<H, Tx>, b: seq<RawGbt<H, Tx>>)
    requires Valid(c)
    requires Fresh(c, b)
    ensures InsertAll(c, b).queue == Last(c.capacity, c.queue + Hashes(b))
    decreases |b|
  {
    if b == [] {
      assert c.queue + Hashes(b) == c.queue;
    } else {
      var c1 := Insert(c, b[0].hash, b[0].txs);
      var rest := b[1..];
      FreshAfterInsert(c, c1, b);
      assert InsertAll(c, b) == InsertAll(c1, rest);
      InsertAllQueue(c1, rest);
      InsertQueueIsLast(c, b[0].hash, b[0].txs);
      AppendThenTrim(c.capacity, c.queue, b[0].hash, Hashes(rest), Hashes(b));
    }
  }

  /** A single insert keeps the newest `capacity` hashes of the old queue
      followed by the new hash. */
  lemma InsertQueueIsLast<H, Tx>(c: Cache<H, Tx>, h: H, v: seq<Tx>)
    requires Valid(c)
    requires h !in c.txs
    ensures Insert(c, h, v).queue == Last(c.capacity, c.queue + [h])
  {
  }

  /** Trimming after each single append equals trimming the whole history. */
  lemma AppendThenTrim<H>(n: nat, q: seq<H>, h: H, rest: seq<H>, all: seq<H>)
    requires all == [h] + rest
    ensures Last(n, Last(n, q + [h]) + rest) == Last(n, q + all)
  {
    LastOfLast(n, q + [h], rest);
    assert q + [h] + rest == q + all;
  }

  /** After any batch of fresh inserts nothing but earlier entries and the
      batch's own hashes is retained, every earlier entry that survives is
      unchanged, and every retained batch hash maps to the transactions it
      was inserted with. */
  lemma {:induction false} InsertAllTxs<H, Tx>(c: Cache<H, Tx>, b: seq<RawGbt<H, Tx>>)
    requires Valid(c)
    requires Fresh(c, b)
    ensures forall h :: h in InsertAll(c, b).txs ==> h in c.txs || h in Hashes(b)
    ensures forall h :: h in InsertAll(c, b).txs && h in c.txs ==> InsertAll(c, b).txs[h] == c.txs[h]
    ensures forall i :: 0 <= i < |b| && b[i].hash in InsertAll(c, b).txs ==>
      InsertAll(c, b).txs[b[i].hash] == b[i].txs
    decreases |b|
  {
    if b != [] {
      var c1 := Insert(c, b[0].hash, b[0].txs);
      var rest := b[1..];
      FreshAfterInsert(c, c1, b);
      FreshTail(c, b);
      var r := InsertAll(c1, rest);
      assert InsertAll(c, b) == r;
      InsertAllTxs(c1, rest);
      assert Hashes(b) == [b[0].hash] + Hashes(rest);
      forall h | h in r.txs && h in c.txs ensures r.txs[h] == c.txs[h] {
        assert h in c1.txs;
      }
      forall i | 0 <= i < |b| && b[i].hash in r.txs ensures r.txs[b[i].hash] == b[i].txs {
        if i == 0 {
          assert b[0].hash in c1.txs;
        } else {
          assert b[i] == rest[i - 1];
        }
      }
    }
  }

  /** Inserting C+k templates with distinct hashes into an empty cache of
      capacity C leaves exactly the last C resolvable, each to its own
      transactions, and the first k not found. */
  lemma FirstKEvicted<H, Tx>(capacity: nat, k: nat, b: seq<RawGbt<H, Tx>>)
    requires DistinctHashes(b)
    requires |b| == capacity + k
    ensures forall i :: 0 <= i < k ==>
      Lookup(InsertAll(Empty(capacity), b), b[i].hash) == None
    ensures forall i :: k <= i < |b| ==>
      Lookup(InsertAll(Empty(capacity), b), b[i].hash) == Some(b[i].txs)
  {
    var c: Cache<H, Tx> := Empty(capacity);
    var r := InsertAll(c, b);
    InsertAllQueue(c, b);
    InsertAllTxs(c, b);
    var hs := Hashes(b);
    assert c.queue + hs == hs;
    assert r.queue == hs[k..];
    DistinctSuffix(b, k);
  }

  /** In a batch with distinct hashes, dropping the first k templates drops
      exactly their hashes. */
  lemma DistinctSuffix<H, Tx>(b: seq<RawGbt<H, Tx>>, k: nat)
    requires DistinctHashes(b)
    requires k <= |b|
    ensures forall i :: 0 <= i < k ==> b[i].hash !in Hashes(b)[k..]
    ensures forall i :: k <= i < |b| ==> b[i].hash in Hashes(b)[k..]
  {
  }
}
