/**
 * The block-buffered record store of the crawler (Loader.java:15-34, 66-73, 225-242): records are
 * appended to an in-memory block; a full block is written to disk as `block_<n>.dat`; an index
 * maps each url to (block number, position in block). A block write can fail; the caller is told
 * nothing, so each write takes its outcome as a flag.
 */
module RecordStore {
  /** A crawled page: its url and the count of each of its words. */
  datatype SiteRecord = SiteRecord(url: string, wordFrequency: map<string, int>)

  /** Block number and position of a record, as put into the index. */
  type Location = (int, int)

  /** The state of a Loader: the buffered block, the number of the next block, the blocks on disk. */
  datatype Store = Store(blockSize: int, buffer: seq<SiteRecord>, blockIndex: nat, disk: map<nat, seq<SiteRecord>>)

  /** `writeBlockToFile`: on success the block is on disk under its number, the counter moves on and
   * the buffer is cleared; on failure nothing changes. */
  function WriteBlock(s: Store, ok: bool): Store
  {
    if ok then s.(disk := s.disk[s.blockIndex := s.buffer], blockIndex := s.blockIndex + 1, buffer := [])
    else s
  }

  /** `addSiteRecord`: append, write the block when it is full, then index the url at the current
   * block number and the last position of the buffer (-1 when the buffer was just cleared). */
  function AddStep(s: Store, r: SiteRecord, ok: bool): (Store, Location)
  {
    var appended := s.(buffer := s.buffer + [r]);
    var after := if |appended.buffer| >= s.blockSize then WriteBlock(appended, ok) else appended;
    (after, (after.blockIndex, |after.buffer| - 1))
  }

  /** `flush`: write a non-empty buffer, then clear it whatever the outcome of the write. */
  function FlushStep(s: Store, ok: bool): Store
  {
    if s.buffer != [] then WriteBlock(s, ok).(buffer := []) else s
  }

  /** The blocks on disk are exactly those numbered below the counter, so the next write creates a
   * block file and never overwrites one. */
  predicate Valid(s: Store)
  {
    (forall i :: i in s.disk ==> i < s.blockIndex) && (forall i: nat :: i < s.blockIndex ==> i in s.disk)
  }

  /** The blocks 0 .. n-1 in order. */
  function Blocks(disk: map<nat, seq<SiteRecord>>, n: nat): seq<SiteRecord>
    requires forall i: nat :: i < n ==> i in disk
  {
    if n == 0 then [] else Blocks(disk, n - 1) + disk[n - 1]
  }

  /** Every record kept, on disk or in the buffer, in the order it was added. */
  function Stored(s: Store): seq<SiteRecord>
    requires Valid(s)
  {
    Blocks(s.disk, s.blockIndex) + s.buffer
  }

  /** The location names a slot holding `r`: a position of the buffer under the current block
   * number, or a position of a block on disk. */
  predicate Locates(s: Store, loc: Location, r: SiteRecord)
  {
    (loc.0 == s.blockIndex && 0 <= loc.1 < |s.buffer| && s.buffer[loc.1] == r) ||
    (0 <= loc.0 && loc.0 as nat in s.disk && 0 <= loc.1 < |s.disk[loc.0 as nat]| && s.disk[loc.0 as nat][loc.1] == r)
  }

  /** The add writes a block when the appended record fills it. */
  predicate Fills(s: Store)
  {
    |s.buffer| + 1 >= s.blockSize
  }

  /** An add that does not fill the block appends the record and indexes it at its buffer position. */
  lemma NonFlushingAdd(s: Store, r: SiteRecord, ok: bool)
    requires !Fills(s)
    ensures var (t, loc) := AddStep(s, r, ok);
      t.buffer == s.buffer + [r] && t.blockIndex == s.blockIndex && t.disk == s.disk &&
      loc == (s.blockIndex, |s.buffer|) && Locates(t, loc, r)
  {
  }

  /** An add that fills the block and writes it moves the counter by one, empties the buffer and
   * indexes the url at (new block number, -1), a slot that holds nothing; the record itself is the
   * last of the block just written. */
  lemma FlushingAdd(s: Store, r: SiteRecord)
    requires Valid(s) && Fills(s)
    ensures var (t, loc) := AddStep(s, r, true);
      t.blockIndex == s.blockIndex + 1 && t.buffer == [] &&
      loc == (s.blockIndex + 1, -1) && !Locates(t, loc, r) &&
      t.disk[s.blockIndex] == s.buffer + [r]
  {
  }

  /** A failed block write leaves the counter and the disk as they were and keeps the record in the
   * buffer, which then holds `blockSize` records or more. */
  lemma FailedWriteAdd(s: Store, r: SiteRecord)
    requires Fills(s)
    ensures var (t, loc) := AddStep(s, r, false);
      t.blockIndex == s.blockIndex && t.disk == s.disk && t.buffer == s.buffer + [r] &&
      |t.buffer| >= s.blockSize && Locates(t, loc, r)
  {
  }

  /** The index entry of an add locates the record exactly when the add did not write a block. */
  lemma AddLocatesUnlessWritten(s: Store, r: SiteRecord, ok: bool)
    requires Valid(s)
    ensures var (t, loc) := AddStep(s, r, ok);
      Locates(t, loc, r) <==> !(Fills(s) && ok)
  {
    if Fills(s) && ok {
      FlushingAdd(s, r);
    } else if Fills(s) {
      FailedWriteAdd(s, r);
    } else {
      NonFlushingAdd(s, r, ok);
    }
  }

  /** When every write succeeds and blocks hold at least one record, the buffer stays below the
   * block size. */
  lemma BufferStaysBelowBlockSize(s: Store, r: SiteRecord)
    requires 1 <= s.blockSize && |s.buffer| < s.blockSize
    ensures |AddStep(s, r, true).0.buffer| < s.blockSize
  {
  }

  lemma {:induction false} BlocksExtend(disk: map<nat, seq<SiteRecord>>, n: nat, block: seq<SiteRecord>)
    requires forall i: nat :: i < n ==> i in disk
    ensures Blocks(disk[n := block], n + 1) == Blocks(disk, n) + block
  {
    BlocksUnchanged(disk, n, n, block);
  }

  lemma {:induction false} BlocksUnchanged(disk: map<nat, seq<SiteRecord>>, n: nat, k: nat, block: seq<SiteRecord>)
    requires k <= n && forall i: nat :: i < n ==> i in disk
    ensures Blocks(disk[n := block], k) == Blocks(disk, k)
  {
    if k > 0 {
      BlocksUnchanged(disk, n, k - 1, block);
    }
  }

  /** A block write, successful or not, loses no record and keeps their order. */
  lemma WriteBlockKeeps(s: Store, ok: bool)
    requires Valid(s)
    ensures Valid(WriteBlock(s, ok)) && Stored(WriteBlock(s, ok)) == Stored(s)
  {
    if ok {
      BlocksExtend(s.disk, s.blockIndex, s.buffer);
    }
  }

  /** Adding keeps every earlier record and puts the new one last, whatever the write's outcome. */
  lemma AddKeepsRecords(s: Store, r: SiteRecord, ok: bool)
    requires Valid(s)
    ensures Valid(AddStep(s, r, ok).0)
    ensures Stored(AddStep(s, r, ok).0) == Stored(s) + [r]
  {
    var appended := s.(buffer := s.buffer + [r]);
    assert Stored(appended) == Stored(s) + [r];
    WriteBlockKeeps(appended, ok);
  }

  /** Flushing always empties the buffer; a successful write keeps every record, a failed one loses
   * exactly the buffered ones. */
  lemma FlushOutcome(s: Store, ok: bool)
    requires Valid(s)
    ensures Valid(FlushStep(s, ok)) && FlushStep(s, ok).buffer == []
    ensures ok || s.buffer == [] ==> Stored(FlushStep(s, ok)) == Stored(s)
    ensures !ok ==> Stored(FlushStep(s, ok)) == Blocks(s.disk, s.blockIndex)
    ensures FlushStep(s, ok).blockIndex == if ok && s.buffer != [] then s.blockIndex + 1 else s.blockIndex
  {
    if s.buffer != [] && ok {
      BlocksExtend(s.disk, s.blockIndex, s.buffer);
    }
  }

  /** An index entry that locates its record keeps locating it after a block write, after any later
   * add, and after a successful flush: a buffered record moves to the block written under the
   * same number and position, and the blocks already on disk are never overwritten. */
  lemma LocationKept(s: Store, loc: Location, r: SiteRecord, r': SiteRecord, ok: bool)
    requires Valid(s) && Locates(s, loc, r)
    ensures Locates(WriteBlock(s, ok), loc, r)
    ensures Locates(AddStep(s, r', ok).0, loc, r)
    ensures Locates(FlushStep(s, true), loc, r)
  {
    var appended := s.(buffer := s.buffer + [r']);
    assert Locates(appended, loc, r) by {
      if loc.0 == s.blockIndex && 0 <= loc.1 < |s.buffer| && s.buffer[loc.1] == r {
        assert appended.buffer[loc.1] == r;
      }
    }
  }

  /** A second flush changes nothing. */
  lemma FlushIdempotent(s: Store, ok: bool, ok2: bool)
    ensures FlushStep(FlushStep(s, ok), ok2) == FlushStep(s, ok)
  {
  }

  /** The index the store fills (a PersistentHashTable in the crawler): url to location. */
  class RecordIndex {
    var entries: map<string, Location>

    constructor()
      ensures entries == map[]
    {
      entries := map[];
    }

    method Put(url: string, block: int, position: int)
      modifies this
      ensures entries == old(entries)[url := (block, position)]
    {
      entries := entries[url := (block, position)];
    }
  }

  class Loader {
    const blockSize: int
    var blockBuffer: seq<SiteRecord>
    var blockIndex: nat
    /** The block files written so far, by block number. */
    var disk: map<nat, seq<SiteRecord>>

    function State(): Store
      reads this
    {
      Store(blockSize, blockBuffer, blockIndex, disk)
    }

    constructor(blockSize: int)
      ensures State() == Store(blockSize, [], 0, map[]) && Valid(State())
    {
      this.blockSize := blockSize;
      blockBuffer := [];
      blockIndex := 0;
      disk := map[];
    }

    /** `writeBlockToFile`, with the outcome of the write given. */
    method WriteBlockToFile(ok: bool)
      modifies this
      ensures State() == WriteBlock(old(State()), ok)
    {
      if ok {
        disk := disk[blockIndex := blockBuffer];
        blockIndex := blockIndex + 1;
        blockBuffer := [];
      }
    }

    /** `addSiteRecord`, with the outcome of the block write it may trigger given. */
    method AddSiteRecord(record: SiteRecord, hashTable: RecordIndex, ok: bool)
      modifies this, hashTable
      ensures State() == AddStep(old(State()), record, ok).0
      ensures hashTable.entries == old(hashTable.entries)[record.url := AddStep(old(State()), record, ok).1]
    {
      blockBuffer := blockBuffer + [record];
      if |blockBuffer| >= blockSize {
        WriteBlockToFile(ok);
      }
      hashTable.Put(record.url, blockIndex, |blockBuffer| - 1);
    }

    /** `flush`, with the outcome of the write given. */
    method Flush(ok: bool)
      modifies this
      ensures State() == FlushStep(old(State()), ok)
    {
      if blockBuffer != [] {
        WriteBlockToFile(ok);
        blockBuffer := [];
      }
    }
  }
}
