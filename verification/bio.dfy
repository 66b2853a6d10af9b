/** The buffer cache of kernel/bio.c: NBUF slots, a two-way hash index between
    block keys and slots, per-slot reference counts and release timestamps, and
    the eviction scan that recycles the least recently released free slot.
    Locks are removed: every operation is one atomic step on an immutable
    `Cache` value. The disk driver is reduced to a "read happened" flag. */
module BufferCache {
  import opened Wrappers

  /** C's 32-bit `uint`: `dev`, `blockno`, `refcnt`, `ticks` and the timestamps. */
  const U32: int := 0x1_0000_0000
  type uint32 = x: int | 0 <= x < 0x1_0000_0000

  /** `x++` and `x--` on a `uint` wrap around. */
  function Inc32(x: uint32): uint32 { (x + 1) % U32 }
  function Dec32(x: uint32): uint32 { (x - 1) % U32 }

  const HASH_TABLE_SIZE: nat := 65537
  /** The `-1` sentinel of both index arrays and of `findevictee`. */
  const NO_ENTRY: int := -1
  /** Initial `eticks` of the eviction scan. */
  const MAX_TICKS: uint32 := 0xffff_ffff

  /** HASH_FUNC: the products and sums are computed in `uint` (mod 2^32)
      before the final `% HASH_TABLE_SIZE`. */
  function Hash(dev: uint32, blockno: uint32): (key: nat)
    ensures key < HASH_TABLE_SIZE
  {
    var d := (dev + 7) % U32;
    var b := (blockno + 11) % U32;
    ((d * b % U32 + 57) % U32) % HASH_TABLE_SIZE
  }

  datatype Buf = Buf(dev: uint32, blockno: uint32, valid: bool, refcnt: uint32)

  datatype Cache = Cache(
    buf: seq<Buf>,
    key2bidx: seq<int>,
    bidx2key: seq<int>,
    timestamp: seq<uint32>)

  datatype Fault =
    | HashConflict  // panic("hash conflict")
    | NoBuffers     // panic("bget: no buffers")
    | NotHolding    // panic("brelse")

  /** Array sizes, and every index entry is either NO_ENTRY or in range. */
  ghost predicate IndexShape(c: Cache) {
    && |c.key2bidx| == HASH_TABLE_SIZE
    && |c.bidx2key| == |c.buf|
    && |c.timestamp| == |c.buf|
    && (forall k | 0 <= k < HASH_TABLE_SIZE :: c.key2bidx[k] == NO_ENTRY || 0 <= c.key2bidx[k] < |c.buf|)
    && (forall i | 0 <= i < |c.buf| :: c.bidx2key[i] == NO_ENTRY || 0 <= c.bidx2key[i] < HASH_TABLE_SIZE)
  }

  /** `key2bidx` and `bidx2key` are inverse partial maps. */
  ghost predicate InverseIndex(c: Cache)
    requires IndexShape(c)
  {
    && (forall k | 0 <= k < HASH_TABLE_SIZE && c.key2bidx[k] != NO_ENTRY :: c.bidx2key[c.key2bidx[k]] == k)
    && (forall i | 0 <= i < |c.buf| && c.bidx2key[i] != NO_ENTRY :: c.key2bidx[c.bidx2key[i]] == i)
  }

  /** A mapped slot is filed under the hash of the block it holds. */
  ghost predicate KeysMatchBlocks(c: Cache)
    requires IndexShape(c)
  {
    forall i | 0 <= i < |c.buf| && c.bidx2key[i] != NO_ENTRY ::
      c.bidx2key[i] == Hash(c.buf[i].dev, c.buf[i].blockno)
  }

  ghost predicate Valid(c: Cache) {
    IndexShape(c) && InverseIndex(c) && KeysMatchBlocks(c)
  }

  /** The two one-directional conditions of InverseIndex amount to
      `key2bidx[k] == i` if and only if `bidx2key[i] == k`. */
  lemma InverseIff(c: Cache)
    requires IndexShape(c)
    ensures InverseIndex(c) <==>
      forall k, i | 0 <= k < HASH_TABLE_SIZE && 0 <= i < |c.buf| ::
        c.key2bidx[k] == i <==> c.bidx2key[i] == k
  {
    if InverseIndex(c) {
      forall k, i | 0 <= k < HASH_TABLE_SIZE && 0 <= i < |c.buf|
        ensures c.key2bidx[k] == i <==> c.bidx2key[i] == k
      {
        if c.bidx2key[i] == k {
          assert c.key2bidx[c.bidx2key[i]] == i;
        }
      }
    }
    if forall k, i | 0 <= k < HASH_TABLE_SIZE && 0 <= i < |c.buf| :: c.key2bidx[k] == i <==> c.bidx2key[i] == k {
      forall k | 0 <= k < HASH_TABLE_SIZE && c.key2bidx[k] != NO_ENTRY
        ensures c.bidx2key[c.key2bidx[k]] == k
      {
        var i := c.key2bidx[k];
        assert c.key2bidx[k] == i;
      }
      forall i | 0 <= i < |c.buf| && c.bidx2key[i] != NO_ENTRY
        ensures c.key2bidx[c.bidx2key[i]] == i
      {
        var k := c.bidx2key[i];
        assert c.bidx2key[i] == k;
      }
    }
  }

  /** binit, index and timestamp part: nothing mapped, every timestamp 0. The
      slots themselves are the zero-initialised static array. */
  function Binit(nbuf: nat): (c: Cache)
    ensures Valid(c) && |c.buf| == nbuf
    ensures forall k | 0 <= k < HASH_TABLE_SIZE :: c.key2bidx[k] == NO_ENTRY
    ensures forall i | 0 <= i < nbuf :: c.bidx2key[i] == NO_ENTRY && c.timestamp[i] == 0 && c.buf[i].refcnt == 0
  {
    Cache(
      seq(nbuf, _ => Buf(0, 0, false, 0)),
      seq(HASH_TABLE_SIZE, _ => NO_ENTRY),
      seq(nbuf, _ => NO_ENTRY),
      seq(nbuf, _ => 0))
  }

  /** addkey: file slot `bindex` under `key`, in both directions. */
  function AddKey(c: Cache, key: nat, bindex: nat): (r: Cache)
    requires IndexShape(c) && key < HASH_TABLE_SIZE && bindex < |c.buf|
    ensures IndexShape(r) && r.buf == c.buf && r.timestamp == c.timestamp
    ensures r.key2bidx[key] == bindex && r.bidx2key[bindex] == key
    ensures forall k | 0 <= k < HASH_TABLE_SIZE && k != key :: r.key2bidx[k] == c.key2bidx[k]
    ensures forall i | 0 <= i < |c.buf| && i != bindex :: r.bidx2key[i] == c.bidx2key[i]
  {
    c.(key2bidx := c.key2bidx[key := bindex], bidx2key := c.bidx2key[bindex := key])
  }

  /** delkey: unfile slot `bindex`; a slot that is not filed is left alone. */
  function DelKey(c: Cache, bindex: nat): (r: Cache)
    requires IndexShape(c) && bindex < |c.buf|
    ensures IndexShape(r) && r.buf == c.buf && r.timestamp == c.timestamp
    ensures c.bidx2key[bindex] == NO_ENTRY ==> r == c
    ensures c.bidx2key[bindex] != NO_ENTRY ==>
      r.key2bidx[c.bidx2key[bindex]] == NO_ENTRY && r.bidx2key[bindex] == NO_ENTRY
    ensures forall k | 0 <= k < HASH_TABLE_SIZE && k != c.bidx2key[bindex] :: r.key2bidx[k] == c.key2bidx[k]
    ensures forall i | 0 <= i < |c.buf| && i != bindex :: r.bidx2key[i] == c.bidx2key[i]
  {
    var key := c.bidx2key[bindex];
    if key != NO_ENTRY then
      c.(key2bidx := c.key2bidx[key := NO_ENTRY], bidx2key := c.bidx2key[bindex := NO_ENTRY])
    else
      c
  }

  /** The miss path of bget, `delkey(victim); addkey(key, victim)`, keeps the
      two index arrays inverse, provided `key` was not filed before. */
  lemma MissPathKeepsInverse(c: Cache, key: nat, victim: nat)
    requires IndexShape(c) && InverseIndex(c)
    requires key < HASH_TABLE_SIZE && victim < |c.buf|
    requires c.key2bidx[key] == NO_ENTRY
    ensures InverseIndex(AddKey(DelKey(c, victim), key, victim))
  {
    var old_key := c.bidx2key[victim];
    var d := DelKey(c, victim);
    var a := AddKey(d, key, victim);
    forall k | 0 <= k < HASH_TABLE_SIZE && a.key2bidx[k] != NO_ENTRY
      ensures a.bidx2key[a.key2bidx[k]] == k
    {
      if k != key {
        var j := c.key2bidx[k];
        assert j != NO_ENTRY && c.bidx2key[j] == k;
      }
    }
    forall i | 0 <= i < |c.buf| && a.bidx2key[i] != NO_ENTRY
      ensures a.key2bidx[a.bidx2key[i]] == i
    {
      if i != victim {
        var k := c.bidx2key[i];
        assert c.key2bidx[k] == i;
      }
    }
  }

  /** Slot `r` is free (refcnt 0) and was released no later than any other free
      slot below `hi`; among equal timestamps it is the highest index, because
      the scan replaces its candidate on `<=`. */
  ghost predicate IsEvicteeBelow(c: Cache, r: int, hi: nat)
    requires |c.timestamp| == |c.buf| && hi <= |c.buf|
  {
    && 0 <= r < hi
    && c.buf[r].refcnt == 0
    && forall j | 0 <= j < hi && c.buf[j].refcnt == 0 ::
         c.timestamp[r] <= c.timestamp[j] && (r < j ==> c.timestamp[r] < c.timestamp[j])
  }

  ghost predicate IsEvictee(c: Cache, r: int)
    requires |c.timestamp| == |c.buf|
  {
    IsEvicteeBelow(c, r, |c.buf|)
  }

  ghost predicate AllReferencedBelow(c: Cache, hi: nat)
    requires hi <= |c.buf|
  {
    forall j | 0 <= j < hi :: c.buf[j].refcnt != 0
  }

  ghost predicate ScanInv(c: Cache, i: nat, eticks: uint32, eindex: int)
    requires |c.timestamp| == |c.buf| && i <= |c.buf|
  {
    if eindex == NO_ENTRY then eticks == MAX_TICKS && AllReferencedBelow(c, i)
    else IsEvicteeBelow(c, eindex, i) && eticks == c.timestamp[eindex]
  }

  /** One iteration per slot of findevictee's loop, from slot `i` on, carrying
      the best candidate so far (`eticks`, `eindex`). */
  function EvictScan(c: Cache, i: nat, eticks: uint32, eindex: int): (r: int)
    requires |c.timestamp| == |c.buf| && i <= |c.buf|
    requires ScanInv(c, i, eticks, eindex)
    ensures r == NO_ENTRY <==> AllReferencedBelow(c, |c.buf|)
    ensures r != NO_ENTRY ==> IsEvictee(c, r)
    decreases |c.buf| - i
  {
    if i == |c.buf| then eindex
    else if c.buf[i].refcnt != 0 then EvictScan(c, i + 1, eticks, eindex)
    else if c.timestamp[i] <= eticks then EvictScan(c, i + 1, c.timestamp[i], i)
    else EvictScan(c, i + 1, eticks, eindex)
  }

  /** findevictee: NO_ENTRY exactly when every slot is referenced; otherwise a
      free slot with the smallest timestamp, ties going to the highest index. */
  function FindEvictee(c: Cache): (r: int)
    requires |c.timestamp| == |c.buf|
    ensures r == NO_ENTRY <==> AllReferencedBelow(c, |c.buf|)
    ensures r != NO_ENTRY ==> IsEvictee(c, r)
  {
    EvictScan(c, 0, MAX_TICKS, NO_ENTRY)
  }

  /** The miss path of bget once `victim` is chosen: `delkey(victim)`,
      `addkey(key, victim)`, then the slot takes the block, invalid, with one
      reference. Only the victim's old key and the new key change in
      `key2bidx`, and only the victim's entry in `bidx2key`. */
  function Refile(c: Cache, victim: nat, dev: uint32, blockno: uint32): (r: Cache)
    requires Valid(c) && victim < |c.buf| && c.key2bidx[Hash(dev, blockno)] == NO_ENTRY
    ensures Valid(r) && |r.buf| == |c.buf| && r.timestamp == c.timestamp
    ensures r.buf[victim] == Buf(dev, blockno, false, 1)
    ensures forall i | 0 <= i < |c.buf| && i != victim :: r.buf[i] == c.buf[i]
    ensures r.key2bidx[Hash(dev, blockno)] == victim && r.bidx2key[victim] == Hash(dev, blockno)
    ensures c.bidx2key[victim] != NO_ENTRY ==> r.key2bidx[c.bidx2key[victim]] == NO_ENTRY
    ensures forall k | 0 <= k < HASH_TABLE_SIZE && k != Hash(dev, blockno) && k != c.bidx2key[victim] ::
      r.key2bidx[k] == c.key2bidx[k]
    ensures forall i | 0 <= i < |c.buf| && i != victim :: r.bidx2key[i] == c.bidx2key[i]
  {
    var key := Hash(dev, blockno);
    MissPathKeepsInverse(c, key, victim);
    var c1 := AddKey(DelKey(c, victim), key, victim);
    var r := c1.(buf := c1.buf[victim := Buf(dev, blockno, false, 1)]);
    assert KeysMatchBlocks(r) by {
      forall i | 0 <= i < |r.buf| && r.bidx2key[i] != NO_ENTRY
        ensures r.bidx2key[i] == Hash(r.buf[i].dev, r.buf[i].blockno)
      {
        if i != victim {
          assert r.bidx2key[i] == c.bidx2key[i] && r.buf[i] == c.buf[i];
        }
      }
    }
    r
  }

  datatype Acquired = Acquired(cache: Cache, slot: nat)

  /** bget: look the block up through the hash index; on a hit take one more
      reference, on a miss recycle the evictee for the block. */
  function Bget(c: Cache, dev: uint32, blockno: uint32): (r: Result<Acquired, Fault>)
    requires Valid(c)
    ensures r.Success? ==>
      && Valid(r.value.cache)
      && |r.value.cache.buf| == |c.buf|
      && r.value.slot < |c.buf|
      && r.value.cache.buf[r.value.slot].dev == dev
      && r.value.cache.buf[r.value.slot].blockno == blockno
      && r.value.cache.key2bidx[Hash(dev, blockno)] == r.value.slot
      && r.value.cache.timestamp == c.timestamp
      && (forall i | 0 <= i < |c.buf| && i != r.value.slot :: r.value.cache.buf[i] == c.buf[i])
      // the index changes only at the block's key, the slot's old key and the slot itself
      && (forall i | 0 <= i < |c.buf| && i != r.value.slot :: r.value.cache.bidx2key[i] == c.bidx2key[i])
      && (forall k | 0 <= k < HASH_TABLE_SIZE && k != Hash(dev, blockno) && k != c.bidx2key[r.value.slot] ::
            r.value.cache.key2bidx[k] == c.key2bidx[k])
    // hit: the filed slot holds the block; one more reference, nothing else changes
    ensures
      var b := c.key2bidx[Hash(dev, blockno)];
      b != NO_ENTRY && c.buf[b].dev == dev && c.buf[b].blockno == blockno ==>
        && r.Success? && r.value.slot == b
        && r.value.cache.buf[b] == c.buf[b].(refcnt := Inc32(c.buf[b].refcnt))
        && r.value.cache.key2bidx == c.key2bidx && r.value.cache.bidx2key == c.bidx2key
    // miss: the evictee is refiled under the block, invalid, with one reference
    ensures c.key2bidx[Hash(dev, blockno)] == NO_ENTRY && r.Success? ==>
      && IsEvictee(c, r.value.slot)
      && r.value.cache.buf[r.value.slot] == Buf(dev, blockno, false, 1)
      && r.value.cache.bidx2key[r.value.slot] == Hash(dev, blockno)
      && (c.bidx2key[r.value.slot] != NO_ENTRY ==> r.value.cache.key2bidx[c.bidx2key[r.value.slot]] == NO_ENTRY)
    ensures r == Failure(HashConflict) <==>
      var b := c.key2bidx[Hash(dev, blockno)];
      b != NO_ENTRY && (c.buf[b].dev != dev || c.buf[b].blockno != blockno)
    ensures r == Failure(NoBuffers) <==>
      c.key2bidx[Hash(dev, blockno)] == NO_ENTRY && AllReferencedBelow(c, |c.buf|)
    ensures r.Failure? ==> r.error != NotHolding
  {
    var key := Hash(dev, blockno);
    var bindex := c.key2bidx[key];
    if bindex != NO_ENTRY then
      var b := c.buf[bindex];
      if b.dev != dev || b.blockno != blockno then Failure(HashConflict)
      else Success(Acquired(c.(buf := c.buf[bindex := b.(refcnt := Inc32(b.refcnt))]), bindex))
    else
      var victim := FindEvictee(c);
      if victim == NO_ENTRY then Failure(NoBuffers)
      else Success(Acquired(Refile(c, victim, dev, blockno), victim))
  }

  /** Two filed slots never hold the same block, so every live handle on a
      block resolves to one slot. */
  lemma FiledBlocksUnique(c: Cache, i: nat, j: nat)
    requires Valid(c) && i < |c.buf| && j < |c.buf|
    requires c.bidx2key[i] != NO_ENTRY && c.bidx2key[j] != NO_ENTRY
    requires c.buf[i].dev == c.buf[j].dev && c.buf[i].blockno == c.buf[j].blockno
    ensures i == j
  {
    assert c.key2bidx[c.bidx2key[i]] == i;
    assert c.key2bidx[c.bidx2key[j]] == j;
  }

  /** A block that is filed in some slot is always found there by bget: it hits
      that slot and never panics. */
  lemma BgetFindsFiledBlock(c: Cache, i: nat)
    requires Valid(c) && i < |c.buf| && c.bidx2key[i] != NO_ENTRY
    ensures Bget(c, c.buf[i].dev, c.buf[i].blockno).Success?
    ensures Bget(c, c.buf[i].dev, c.buf[i].blockno).value.slot == i
  {
    assert c.key2bidx[c.bidx2key[i]] == i;
  }

  /** Two free slots released at different times: the later one is never the
      evictee. */
  lemma EvictsEarlierRelease(c: Cache, a: nat, b: nat)
    requires |c.timestamp| == |c.buf| && a < |c.buf| && b < |c.buf|
    requires c.buf[a].refcnt == 0 && c.buf[b].refcnt == 0
    requires c.timestamp[a] < c.timestamp[b]
    ensures FindEvictee(c) != NO_ENTRY && FindEvictee(c) != b
  {
  }

  datatype Fetched = Fetched(cache: Cache, slot: nat, diskRead: bool)

  /** bread: bget, then fill the slot from disk unless it is already valid. */
  function Bread(c: Cache, dev: uint32, blockno: uint32): (r: Result<Fetched, Fault>)
    requires Valid(c)
    ensures r.Failure? <==> Bget(c, dev, blockno).Failure?
    ensures r.Failure? ==> r.error == Bget(c, dev, blockno).error
    ensures r.Success? ==>
      && Valid(r.value.cache)
      && r.value.slot < |r.value.cache.buf|
      && r.value.cache.buf[r.value.slot].valid
      && r.value.cache.buf[r.value.slot].dev == dev
      && r.value.cache.buf[r.value.slot].blockno == blockno
      && r.value.slot == Bget(c, dev, blockno).value.slot
      && r.value.cache.buf[r.value.slot].refcnt == Bget(c, dev, blockno).value.cache.buf[r.value.slot].refcnt
    // bread touches only the returned slot's `valid` flag after bget
    ensures r.Success? ==>
      var a := Bget(c, dev, blockno).value;
      && |r.value.cache.buf| == |a.cache.buf|
      && (forall i | 0 <= i < |a.cache.buf| && i != r.value.slot :: r.value.cache.buf[i] == a.cache.buf[i])
      && r.value.cache.key2bidx == a.cache.key2bidx
      && r.value.cache.bidx2key == a.cache.bidx2key
      && r.value.cache.timestamp == a.cache.timestamp
    // the disk is read exactly when the block was not already cached with valid contents
    ensures r.Success? ==>
      (r.value.diskRead <==> !(c.key2bidx[Hash(dev, blockno)] == r.value.slot && c.buf[r.value.slot].valid))
  {
    match Bget(c, dev, blockno)
    case Failure(e) => Failure(e)
    case Success(a) =>
      var b := a.cache.buf[a.slot];
      if !b.valid then
        Success(Fetched(a.cache.(buf := a.cache.buf[a.slot := b.(valid := true)]), a.slot, true))
      else
        Success(Fetched(a.cache, a.slot, false))
  }

  /** brelse on the buffer in slot `b`: the caller must hold its sleeplock
      (`holding`). The slot is found again through the hash of its block; when
      the last reference goes, the slot is stamped with `ticks`. The buffer was
      returned by bget and cannot have been evicted since, so it is filed. */
  function Brelse(c: Cache, b: nat, holding: bool, ticks: uint32): (r: Result<Cache, Fault>)
    requires Valid(c) && b < |c.buf| && c.bidx2key[b] != NO_ENTRY
    ensures r.Failure? <==> !holding
    ensures r.Failure? ==> r.error == NotHolding
    ensures r.Success? ==>
      && Valid(r.value)
      && |r.value.buf| == |c.buf|
      && r.value.key2bidx == c.key2bidx && r.value.bidx2key == c.bidx2key
      && r.value.buf[b] == c.buf[b].(refcnt := Dec32(c.buf[b].refcnt))
      && r.value.timestamp[b] == (if r.value.buf[b].refcnt == 0 then ticks else c.timestamp[b])
      && (forall i | 0 <= i < |c.buf| && i != b :: r.value.buf[i] == c.buf[i] && r.value.timestamp[i] == c.timestamp[i])
  {
    if !holding then Failure(NotHolding)
    else
      var bindex := c.key2bidx[Hash(c.buf[b].dev, c.buf[b].blockno)];
      var rc := Dec32(c.buf[b].refcnt);
      var c1 := c.(buf := c.buf[b := c.buf[b].(refcnt := rc)]);
      if rc == 0 then Success(c1.(timestamp := c1.timestamp[bindex := ticks]))
      else Success(c1)
  }

  /** bpin: one more reference, nothing else changes. */
  function Bpin(c: Cache, b: nat): (r: Cache)
    requires b < |c.buf|
    ensures |r.buf| == |c.buf| && r.buf[b] == c.buf[b].(refcnt := Inc32(c.buf[b].refcnt))
    ensures forall i | 0 <= i < |c.buf| && i != b :: r.buf[i] == c.buf[i]
    ensures r.key2bidx == c.key2bidx && r.bidx2key == c.bidx2key && r.timestamp == c.timestamp
    ensures Valid(c) ==> Valid(r)
  {
    c.(buf := c.buf[b := c.buf[b].(refcnt := Inc32(c.buf[b].refcnt))])
  }

  /** bunpin: one reference less; unlike brelse it never stamps the slot. */
  function Bunpin(c: Cache, b: nat): (r: Cache)
    requires b < |c.buf|
    ensures |r.buf| == |c.buf| && r.buf[b] == c.buf[b].(refcnt := Dec32(c.buf[b].refcnt))
    ensures forall i | 0 <= i < |c.buf| && i != b :: r.buf[i] == c.buf[i]
    ensures r.key2bidx == c.key2bidx && r.bidx2key == c.bidx2key && r.timestamp == c.timestamp
    ensures Valid(c) ==> Valid(r)
  {
    c.(buf := c.buf[b := c.buf[b].(refcnt := Dec32(c.buf[b].refcnt))])
  }

  /** bunpin undoes bpin and bpin undoes bunpin, even across the 32-bit wrap. */
  lemma PinUnpinRoundTrip(c: Cache, b: nat)
    requires b < |c.buf|
    ensures Bunpin(Bpin(c, b), b) == c
    ensures Bpin(Bunpin(c, b), b) == c
  {
    assert Bunpin(Bpin(c, b), b).buf == c.buf;
    assert Bpin(Bunpin(c, b), b).buf == c.buf;
  }

  /** A hit followed by brelse gives the filed slot back with the reference
      count it had, stamped with the release time exactly when that count is
      zero; the index is untouched. */
  lemma AcquireReleaseHit(c: Cache, i: nat, ticks: uint32)
    requires Valid(c) && i < |c.buf| && c.bidx2key[i] != NO_ENTRY
    ensures
      var a := Bget(c, c.buf[i].dev, c.buf[i].blockno).value;
      var r := Brelse(a.cache, a.slot, true, ticks);
      && a.slot == i
      && r.Success?
      && r.value.buf[i] == c.buf[i]
      && r.value.key2bidx == c.key2bidx && r.value.bidx2key == c.bidx2key
      && r.value.timestamp[i] == (if c.buf[i].refcnt == 0 then ticks else c.timestamp[i])
  {
    BgetFindsFiledBlock(c, i);
    var a := Bget(c, c.buf[i].dev, c.buf[i].blockno).value;
    assert a.cache.buf[i] == c.buf[i].(refcnt := Inc32(c.buf[i].refcnt));
    assert a.cache.bidx2key == c.bidx2key && a.cache.timestamp == c.timestamp;
    assert Dec32(Inc32(c.buf[i].refcnt)) == c.buf[i].refcnt;
  }

  /** A miss followed by brelse leaves the recycled slot filed under the new
      block with no references, stamped with the release time. */
  lemma AcquireReleaseMiss(c: Cache, dev: uint32, blockno: uint32, free: nat, ticks: uint32)
    requires Valid(c) && c.key2bidx[Hash(dev, blockno)] == NO_ENTRY
    requires free < |c.buf| && c.buf[free].refcnt == 0
    ensures
      var a := Bget(c, dev, blockno).value;
      var r := Brelse(a.cache, a.slot, true, ticks);
      && r.Success?
      && r.value.buf[a.slot] == Buf(dev, blockno, false, 0)
      && r.value.key2bidx[Hash(dev, blockno)] == a.slot
      && r.value.timestamp[a.slot] == ticks
  {
    assert !AllReferencedBelow(c, |c.buf|);
  }

  /** Distinct blocks can share a hash key; the second one then panics with
      "hash conflict" instead of being cached. */
  lemma HashConflictReachable()
    ensures Hash(0, 0) == Hash(0, 65537)
    ensures
      var c := Bget(Binit(1), 0, 0).value.cache;
      Bget(c, 0, 65537) == Failure(HashConflict)
  {
  }
}
