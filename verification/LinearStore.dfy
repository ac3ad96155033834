/** The linear NVRAM store of src/swtpm/swtpm_nvstore_linear.c: several named blobs in
    one byte buffer, whose first bytes hold the file table in little-endian form. */
module LinearStore {
  import opened Bytes
  import opened PowerOfTwo
  import opened LinearLayout

  // ---- The header as bytes -------------------------------------------------------

  const FILES_OFFSET := 12
  const ENTRY_SIZE := 12

  function WordAt(d: Bytes, at: nat): Word32
    requires at + 4 <= |d|
  {
    FromLe32(d[at..at + 4])
  }

  function EntryAt(d: Bytes, i: nat): FileEntry
    requires HEADER_SIZE <= |d| && i < MAX_STATES
  {
    var at := FILES_OFFSET + ENTRY_SIZE * i;
    FileEntry(WordAt(d, at), WordAt(d, at + 4), WordAt(d, at + 8))
  }

  function EntryBytes(e: FileEntry): (r: Bytes)
    ensures |r| == ENTRY_SIZE
  {
    Le32(e.offset) + Le32(e.dataLength) + Le32(e.sectionLength)
  }

  function TableOf(d: Bytes): (r: Table)
    requires HEADER_SIZE <= |d|
    ensures forall i :: 0 <= i < MAX_STATES ==> r[i] == EntryAt(d, i)
  {
    seq(MAX_STATES, i requires 0 <= i < MAX_STATES => EntryAt(d, i))
  }

  /** Magic and version, as Prepare_Linear writes them. */
  const MAGIC_AND_VERSION: Bytes := [0x6e, 0x69, 0x6c, 0x6d, 0x70, 0x74, 0x77, 0x73, 1]

  // ---- The backing store ------------------------------------------------------------

  /** How the system calls behind one resize or flush end: msync, munmap, ftruncate and
      the new mmap. */
  datatype Answer = Answer(flushed: bool, unmapped: bool, truncated: bool, remapped: bool)
  {
    /** A failing ftruncate matters only if the file was to grow. */
    predicate Resizes(growing: bool) { flushed && unmapped && (truncated || !growing) && remapped }

    predicate Truncates() { flushed && unmapped && truncated }

    /** The old mapping is gone and there is no new one. */
    predicate Drops(growing: bool) { flushed && unmapped && !Resizes(growing) }
  }

  /** How a backing store treats a request to change its size: a file is truncated and
      mapped anew, a device has the size it has, or there is no such operation. */
  datatype Backing = Resizable | FixedSize | NoResizeOp
  {
    predicate Grants(a: Answer, newSize: nat, capacity: nat, length: nat) {
      match this
      case Resizable => a.Resizes(newSize > capacity)
      case FixedSize => newSize <= capacity
      case NoResizeOp => newSize < length
    }

    /** The request ends without a mapping. */
    predicate Unmaps(a: Answer, newSize: nat, capacity: nat) {
      Resizable? && a.Drops(newSize > capacity)
    }
  }

  /** An entry without a section, or with one that is too small. */
  predicate NeedsSection(e: FileEntry, size: nat) {
    !e.Allocated() || size > e.sectionLength
  }

  /** A bound on sections under which fifteen of them never fill 32 bits. */
  const LIMIT := 0x800_0000

  // ---- Names ------------------------------------------------------------------------

  const PERMANENT_ALL_NAME := "permall"
  const VOLATILESTATE_NAME := "volatilestate"
  const SAVESTATE_NAME := "savestate"

  function GetFileNr(name: string): Option<nat> {
    if name == PERMANENT_ALL_NAME then Some(0)
    else if name == VOLATILESTATE_NAME then Some(1)
    else if name == SAVESTATE_NAME then Some(2)
    else None
  }

  // ---- Byte-level lemmas ---------------------------------------------------------------

  /** Overwriting the bytes of one entry changes that entry only. */
  lemma EntryWritten(d: Bytes, d': Bytes, i: nat, e: FileEntry)
    requires HEADER_SIZE <= |d| == |d'| && i < MAX_STATES
    requires d' == Spliced(d, FILES_OFFSET + ENTRY_SIZE * i, EntryBytes(e))
    ensures TableOf(d') == TableOf(d)[i := e]
  {
    forall j | 0 <= j < MAX_STATES
      ensures EntryAt(d', j) == if j == i then e else EntryAt(d, j)
    {
      if j == i {
        SpliceReadBack(d, FILES_OFFSET + ENTRY_SIZE * i, EntryBytes(e));
        EntryReadBack(d', i, e);
      } else {
        EntryUntouched(d, d', i, j);
      }
    }
  }

  lemma EntryReadBack(d: Bytes, i: nat, e: FileEntry)
    requires HEADER_SIZE <= |d| && i < MAX_STATES
    requires var at := FILES_OFFSET + ENTRY_SIZE * i; d[at..at + ENTRY_SIZE] == EntryBytes(e)
    ensures EntryAt(d, i) == e
  {
    var at := FILES_OFFSET + ENTRY_SIZE * i;
    ThreeWords(d, at, Le32(e.offset), Le32(e.dataLength), Le32(e.sectionLength));
    Le32RoundTrip(e.offset);
    Le32RoundTrip(e.dataLength);
    Le32RoundTrip(e.sectionLength);
  }

  lemma ThreeWords(d: Bytes, at: nat, a: Bytes, b: Bytes, c: Bytes)
    requires at + 12 <= |d| && |a| == |b| == |c| == 4 && d[at..at + 12] == a + b + c
    ensures d[at..at + 4] == a && d[at + 4..at + 8] == b && d[at + 8..at + 12] == c
  {
    forall k | 0 <= k < 4
      ensures d[at + k] == a[k] && d[at + 4 + k] == b[k] && d[at + 8 + k] == c[k]
    {
      var s := d[at..at + 12];
      assert s[k] == (a + b + c)[k] && s[4 + k] == (a + b + c)[4 + k] && s[8 + k] == (a + b + c)[8 + k];
    }
  }

  lemma EntryUntouched(d: Bytes, d': Bytes, i: nat, j: nat)
    requires HEADER_SIZE <= |d| == |d'| && i < MAX_STATES && j < MAX_STATES && i != j
    requires var at := FILES_OFFSET + ENTRY_SIZE * i;
             forall x :: 0 <= x < |d| && !(at <= x < at + ENTRY_SIZE) ==> d'[x] == d[x]
    ensures EntryAt(d', j) == EntryAt(d, j)
  {
    var at := FILES_OFFSET + ENTRY_SIZE * j;
    assert d'[at..at + 4] == d[at..at + 4];
    assert d'[at + 4..at + 8] == d[at + 4..at + 8];
    assert d'[at + 8..at + 12] == d[at + 8..at + 12];
  }

  /** The table depends on the header bytes only. */
  lemma TableFromHeader(d: Bytes, d': Bytes)
    requires HEADER_SIZE <= |d| && HEADER_SIZE <= |d'| && d[..HEADER_SIZE] == d'[..HEADER_SIZE]
    ensures TableOf(d) == TableOf(d')
  {
    forall i | 0 <= i < MAX_STATES
      ensures EntryAt(d, i) == EntryAt(d', i)
    {
      var at := FILES_OFFSET + ENTRY_SIZE * i;
      PrefixSlice(d, d', HEADER_SIZE, at, at + 4);
      PrefixSlice(d, d', HEADER_SIZE, at + 4, at + 8);
      PrefixSlice(d, d', HEADER_SIZE, at + 8, at + 12);
    }
  }

  /** Files do not change with bytes behind the last section. */
  lemma ContentsFromPrefix(files: Table, d: Bytes, d': Bytes, k: nat)
    requires Tiled(files, k) && k <= |d| && k <= |d'| && d[..k] == d'[..k]
    ensures ContentsOf(files, d) == ContentsOf(files, d')
  {
    forall i | 0 <= i < MAX_STATES
      ensures SameData(files[i], d, files[i], d')
    {
      if files[i].Allocated() {
        assert SectionWithin(files[i], k);
        SlicesFromPrefix(d, d', k, files[i]);
      }
    }
    SameContents(files, d, files, d', -1);
  }

  lemma SlicesFromPrefix(d: Bytes, d': Bytes, k: nat, e: FileEntry)
    requires k <= |d| && k <= |d'| && d[..k] == d'[..k] && e.Allocated() && SectionWithin(e, k)
    ensures SameData(e, d, e, d')
  {
    PrefixSlice(d, d', k, e.offset, e.offset as int + e.dataLength as int);
  }

  lemma PrefixSlice(d: Bytes, d': Bytes, k: nat, a: nat, b: nat)
    requires a <= b <= k <= |d| && k <= |d'| && d[..k] == d'[..k]
    ensures d[a..b] == d'[a..b]
  {
    assert d[a..b] == d[..k][a..b];
    assert d'[a..b] == d'[..k][a..b];
  }

  lemma TiledToEnd(files: Table, length: nat, end: nat, length': nat)
    requires Tiled(files, length) && IsEnd(files, end) && end <= length'
    ensures Tiled(files, length')
  {
    forall i | 0 <= i < MAX_STATES && files[i].Allocated()
      ensures SectionWithin(files[i], length')
    {
      assert SectionWithin(files[i], length);
    }
  }

  lemma TiledMore(files: Table, length: nat, length': nat)
    requires Tiled(files, length) && length <= length'
    ensures Tiled(files, length')
  {
    forall i | 0 <= i < MAX_STATES && files[i].Allocated()
      ensures SectionWithin(files[i], length')
    {
      assert SectionWithin(files[i], length);
    }
  }

  /** Writing into one section changes that file only. */
  lemma WriteKeepsOthers(files: Table, d: Bytes, d': Bytes, nr: nat, bytes: Bytes)
    requires Tiled(files, |d|) && |d| == |d'| && nr < MAX_STATES && files[nr].Allocated()
    requires |bytes| == files[nr].dataLength
    requires var at := files[nr].offset as int; at + |bytes| <= |d| && d' == Spliced(d, at, bytes)
    ensures ContentsOf(files, d') == ContentsOf(files, d)[nr := bytes]
  {
    forall i | 0 <= i < MAX_STATES && i != nr
      ensures SameData(files[i], d, files[i], d')
    {
      OtherFileKept(files, d, d', nr, i, bytes);
    }
    SameContents(files, d, files, d', nr);
    SpliceReadBack(d, files[nr].offset, bytes);
  }

  lemma OtherFileKept(files: Table, d: Bytes, d': Bytes, nr: nat, i: nat, bytes: Bytes)
    requires Tiled(files, |d|) && nr < MAX_STATES && files[nr].Allocated() && i < MAX_STATES && i != nr
    requires |bytes| == files[nr].dataLength
    requires var at := files[nr].offset as int; at + |bytes| <= |d| && d' == Spliced(d, at, bytes)
    ensures SameData(files[i], d, files[i], d')
  {
    if files[i].Allocated() {
      ApartOrSame(files, |d|, i, nr);
      EntryElsewhere(files[i], files[nr], d, d', bytes);
    }
  }

  lemma EntryElsewhere(e: FileEntry, mine: FileEntry, d: Bytes, d': Bytes, bytes: Bytes)
    requires SectionWithin(e, |d|) && SectionWithin(mine, |d|) && Apart(e, mine)
    requires |bytes| == mine.dataLength
    requires d' == Spliced(d, mine.offset, bytes)
    ensures SameData(e, d, e, d')
  {
    SpliceElsewhere(d, d', mine.offset, bytes, e.offset, e.offset as int + e.dataLength as int);
  }

  lemma SpliceElsewhere(d: Bytes, d': Bytes, at: nat, bytes: Bytes, a: nat, b: nat)
    requires at + |bytes| <= |d| && d' == Spliced(d, at, bytes)
    requires a <= b <= |d| && (b <= at || at + |bytes| <= a)
    ensures |d'| == |d| && d'[a..b] == d[a..b]
  {
    assert |d'| == |d|;
    if b <= at {
      assert d'[..at] == d[..at];
      assert d'[a..b] == d'[..at][a..b];
    } else {
      forall x | a <= x < b
        ensures d'[x] == d[x]
      {
      }
    }
  }

  lemma SpliceReadBack(d: Bytes, at: nat, bytes: Bytes)
    requires at + |bytes| <= |d|
    ensures Spliced(d, at, bytes)[at..at + |bytes|] == bytes
  {
    assert Spliced(d, at, bytes)[..at + |bytes|] == d[..at] + bytes;
  }

  lemma OthersUnderHeader(d: Bytes, d': Bytes, nr: nat, e: FileEntry)
    requires nr < MAX_STATES && HEADER_SIZE <= |d| && Tiled(TableOf(d), |d|) && HeaderWritten(d, d', nr, e)
    ensures FilesIn(d') - {nr} == FilesIn(d) - {nr}
  {
    var files := TableOf(d);
    forall i | 0 <= i < MAX_STATES && i != nr
      ensures SameData(files[i], d, files[nr := e][i], d')
    {
      if files[i].Allocated() {
        assert SectionWithin(files[i], |d|);
        BehindHeader(d, d', files[i].offset, files[i].offset as int + files[i].dataLength as int);
      }
    }
    SameContents(files, d, files[nr := e], d', nr);
  }

  lemma BehindHeader(d: Bytes, d': Bytes, a: nat, b: nat)
    requires HEADER_SIZE <= a <= b <= |d| == |d'| && d[HEADER_SIZE..] == d'[HEADER_SIZE..]
    ensures d[a..b] == d'[a..b]
  {
    SuffixSlice(d, d', HEADER_SIZE, a, b);
  }

  /** The new end and section of an allocation stay within 32 bits. */
  ghost predicate RoomFor(files: Table, size: nat) {
    forall end: nat, section: nat :: IsEnd(files, end) && IsLeastPowerAbove(section, size)
                                 ==> end + section < 0x1_0000_0000
  }

  /** The return code of a deletion: the bytes of an allocated section are given back, and
      all is flushed. */
  function DeleteResult(b: Backing, env: nat -> Answer, n: nat, wasAllocated: bool): Rc {
    if !wasAllocated then if env(n).flushed then Success else Fail
    else if (b == Resizable ==> env(n).Resizes(false)) && env(n + 1).flushed then Success
    else Fail
  }

  predicate DeleteUnmaps(b: Backing, a: Answer, wasAllocated: bool) {
    wasAllocated && b == Resizable && a.Drops(false)
  }

  /** The table that a new section for a file is placed in: an old one is removed first. */
  function Vacated(files: Table, nr: nat): Table
    requires nr < MAX_STATES
  {
    if files[nr].Allocated() then Removed(files, nr) else files
  }

  /** The store needs no new section, or 32-bit offsets can address it. */
  ghost predicate StoreFits(files: Table, nr: nat, size: nat)
    requires nr < MAX_STATES
  {
    NeedsSection(files[nr], size) ==> RoomFor(Vacated(files, nr), size)
  }

  /** The backing store grants a new section of this size at the end. */
  ghost predicate GrantsSection(b: Backing, a: Answer, capacity: nat, length: nat, files: Table, size: nat) {
    forall end: nat, section: nat {:trigger IsEnd(files, end), IsLeastPowerAbove(section, size)} ::
      IsEnd(files, end) && IsLeastPowerAbove(section, size) ==> b.Grants(a, end + section, capacity, length)
  }

  /** Asking for it ends without a mapping. */
  ghost predicate SectionUnmaps(b: Backing, a: Answer, capacity: nat, files: Table, size: nat) {
    forall end: nat, section: nat {:trigger IsEnd(files, end), IsLeastPowerAbove(section, size)} ::
      IsEnd(files, end) && IsLeastPowerAbove(section, size) ==> b.Unmaps(a, end + section, capacity)
  }

  /** There is a section for the bytes, or the backing store grants one. */
  ghost predicate StoreGranted(b: Backing, a: Answer, capacity: nat, length: nat, files: Table, nr: nat, size: nat)
    requires nr < MAX_STATES
  {
    NeedsSection(files[nr], size) ==> GrantsSection(b, a, capacity, length, Vacated(files, nr), size)
  }

  ghost predicate StoreUnmaps(b: Backing, a: Answer, capacity: nat, files: Table, nr: nat, size: nat)
    requires nr < MAX_STATES
  {
    NeedsSection(files[nr], size) && SectionUnmaps(b, a, capacity, Vacated(files, nr), size)
  }

  // ---- Buffer images ------------------------------------------------------------------

  /** A formatted buffer of which the first `length` bytes count. */
  ghost predicate ValidImage(d: Bytes, length: nat) {
    && HEADER_SIZE <= length <= |d| < 0x1_0000_0000
    && d[10] == 192 && d[11] == 0
    && Tiled(TableOf(d), length)
  }

  ghost function FilesIn(d: Bytes): map<int, Bytes>
    requires HEADER_SIZE <= |d|
  {
    ContentsOf(TableOf(d), d)
  }

  /** Resizing at or above the end of the last section keeps table and files. */
  lemma ResizedImage(d: Bytes, length: nat, d': Bytes, length': nat, end: nat)
    requires ValidImage(d, length) && IsEnd(TableOf(d), end) && end <= length
    requires end <= length' <= |d'| < 0x1_0000_0000 && d[..end] == d'[..end]
    ensures ValidImage(d', length') && TableOf(d') == TableOf(d) && FilesIn(d') == FilesIn(d)
  {
    PrefixSlice(d, d', end, 0, HEADER_SIZE);
    assert d'[..HEADER_SIZE][10] == 192 && d'[..HEADER_SIZE][11] == 0;
    TableFromHeader(d, d');
    TiledToEnd(TableOf(d), length, end, end);
    TiledMore(TableOf(d), end, length');
    ContentsFromPrefix(TableOf(d), d, d', end);
  }

  /** Filling a free table entry with a section behind the last one. */
  lemma AllocatedImage(d: Bytes, length: nat, d': Bytes, nr: nat, e: FileEntry)
    requires ValidImage(d, length) && nr < MAX_STATES && !TableOf(d)[nr].Allocated()
    requires IsEnd(TableOf(d), e.offset) && SectionWithin(e, length)
    requires HeaderWritten(d, d', nr, e)
    ensures ValidImage(d', length)
    ensures FilesIn(d') - {nr} == FilesIn(d) - {nr}
  {
    AllocKeepsTiling(TableOf(d), nr, e, length, length);
    TiledMore(TableOf(d), length, |d|);
    OthersUnderHeader(d, d', nr, e);
  }

  /** One table entry replaced, everything else in place. */
  ghost predicate HeaderWritten(d: Bytes, d': Bytes, nr: nat, e: FileEntry)
    requires nr < MAX_STATES
  {
    && HEADER_SIZE <= |d| == |d'|
    && TableOf(d') == TableOf(d)[nr := e]
    && d'[..FILES_OFFSET] == d[..FILES_OFFSET] && d'[10] == d[10] && d'[11] == d[11]
    && d'[HEADER_SIZE..] == d[HEADER_SIZE..]
  }

  lemma NotAllocated(d: Bytes, nr: nat)
    requires HEADER_SIZE <= |d| && nr < MAX_STATES && !TableOf(d)[nr].Allocated()
    ensures FilesIn(d) == FilesIn(d) - {nr}
  {
  }

  /** Fewer bytes may count, as long as the last section still does. */
  lemma ShrunkImage(d: Bytes, length: nat, length': nat, end: nat)
    requires ValidImage(d, length) && IsEnd(TableOf(d), end) && end <= length' <= length
    ensures ValidImage(d, length')
  {
    TiledToEnd(TableOf(d), length, end, length');
  }

  /** The image after RemoveFile: table entries shifted, following bytes moved down. */
  lemma RemovedImage(d: Bytes, length: nat, d': Bytes, nr: nat, end: nat)
    requires ValidImage(d, length) && nr < MAX_STATES && TableOf(d)[nr].Allocated()
    requires IsEnd(TableOf(d), end) && end <= length
    requires |d'| == |d| && d'[10] == d[10] && d'[11] == d[11] && TableOf(d') == Removed(TableOf(d), nr)
    requires Compacted(TableOf(d)[nr], d, d', end)
    ensures ValidImage(d', length) && IsEnd(TableOf(d'), end - TableOf(d)[nr].sectionLength)
    ensures FilesIn(d') == FilesIn(d) - {nr}
  {
    var files := TableOf(d);
    RemoveKeepsTiling(files, nr, length, length);
    RemoveMovesEnd(files, nr, length, end);
    RemoveKeepsContents(files, nr, length, d, d', end);
  }

  /** Recording a new length that fits the section. */
  lemma LengthRecorded(d: Bytes, d1: Bytes, length: nat, nr: nat, n: Word32)
    requires ValidImage(d, length) && nr < MAX_STATES && !NeedsSection(TableOf(d)[nr], n)
    requires HeaderWritten(d, d1, nr, TableOf(d)[nr].(dataLength := n))
    ensures ValidImage(d1, length) && FilesIn(d1) - {nr} == FilesIn(d) - {nr}
  {
    LengthKeepsTiling(TableOf(d), nr, n, length);
    TiledMore(TableOf(d), length, |d|);
    OthersUnderHeader(d, d1, nr, TableOf(d)[nr].(dataLength := n));
  }

  /** Copying bytes into the section of a file of that length. */
  lemma BytesCopied(d: Bytes, length: nat, nr: nat, bytes: Bytes)
    requires ValidImage(d, length) && nr < MAX_STATES && TableOf(d)[nr].Allocated()
    requires TableOf(d)[nr].dataLength == |bytes|
    ensures var at := TableOf(d)[nr].offset as int;
            && at + |bytes| <= |d|
            && var d2 := Spliced(d, at, bytes);
               ValidImage(d2, length) && TableOf(d2) == TableOf(d) && FilesIn(d2) == FilesIn(d)[nr := bytes]
  {
    var at := TableOf(d)[nr].offset as int;
    assert SectionWithin(TableOf(d)[nr], length);
    var d2 := Spliced(d, at, bytes);
    SpliceElsewhere(d, d2, at, bytes, 0, HEADER_SIZE);
    assert d2[..HEADER_SIZE][10] == d[..HEADER_SIZE][10] && d2[..HEADER_SIZE][11] == d[..HEADER_SIZE][11];
    TableFromHeader(d, d2);
    TiledMore(TableOf(d), length, |d|);
    WriteKeepsOthers(TableOf(d), d, d2, nr, bytes);
  }

  lemma LengthKeepsTiling(files: Table, nr: nat, n: Word32, length: nat)
    requires nr < MAX_STATES && Tiled(files, length) && !NeedsSection(files[nr], n)
    ensures Tiled(files[nr := files[nr].(dataLength := n)], length)
  {
    var files' := files[nr := files[nr].(dataLength := n)];
    forall i | 0 <= i < MAX_STATES && files'[i].Allocated()
      ensures SectionWithin(files'[i], length)
    {
      assert SectionWithin(files[i], length);
    }
    forall i, j | 0 <= i < j < MAX_STATES && files'[i].Allocated() && files'[j].Allocated()
      ensures Apart(files'[i], files'[j])
    {
      assert Apart(files[i], files[j]);
    }
    forall i | 0 <= i < MAX_STATES && files'[i].Allocated()
      ensures Anchored(files', files'[i].offset)
    {
      assert Anchored(files, files[i].offset);
      if files[i].offset != HEADER_SIZE {
        var j :| 0 <= j < MAX_STATES && files[j].Allocated() && files[j].End() == files[i].offset;
        assert files'[j].End() == files[i].offset;
      }
    }
  }

  // ---- Removal ----------------------------------------------------------------------

  /** Rewriting the table and then moving the block behind `gone` down compacts. */
  lemma BlockCompacts(d: Bytes, d1: Bytes, gone: FileEntry, end: nat)
    requires SameBehind(d, d1) && HEADER_SIZE <= gone.offset && gone.End() <= end <= |d|
    ensures var d2 := MovedDown(d1, gone.offset, gone.End(), end - gone.End());
            && Compacted(gone, d, d2, end) && TableOf(d2) == TableOf(d1) && d2[10] == d[10] && d2[11] == d[11]
            && (gone.End() == end ==> d2 == d1)
  {
    var d2 := MovedDown(d1, gone.offset, gone.End(), end - gone.End());
    assert d1[..HEADER_SIZE] == d2[..HEADER_SIZE];
    assert d2[..HEADER_SIZE][10] == d1[10] && d2[..HEADER_SIZE][11] == d1[11];
    TableFromHeader(d1, d2);
    forall x | HEADER_SIZE <= x < |d|
      ensures d1[x] == d[x]
    {
      assert d1[HEADER_SIZE..][x - HEADER_SIZE] == d[HEADER_SIZE..][x - HEADER_SIZE];
    }
  }

  function GapClosedBytes(d: Bytes, offset: Word32, next: Word32, stateEnd: Word32): Bytes
    requires next != 0xffff_ffff ==> offset <= next <= stateEnd <= |d|
  {
    if next != 0xffff_ffff then MovedDown(d, offset, next, stateEnd - next) else d
  }

  lemma GapClosed(d: Bytes, d1: Bytes, length: nat, nr: nat, end: nat, next: Word32, stateEnd: Word32)
    requires ValidImage(d, length) && SameBehind(d, d1)
    requires nr < MAX_STATES && TableOf(d)[nr].Allocated() && TableOf(d1) == Removed(TableOf(d), nr)
    requires IsEnd(TableOf(d), end) && end <= length && LaterSpan(TableOf(d), nr, MAX_STATES, next, stateEnd)
    ensures var gone := TableOf(d)[nr];
            && gone.sectionLength <= end
            && (next != 0xffff_ffff ==> gone.offset <= next <= stateEnd <= |d1|)
            && var d2 := GapClosedBytes(d1, gone.offset, next, stateEnd);
               && ValidImage(d2, length) && TableOf(d2) == TableOf(d1) && FilesIn(d2) == FilesIn(d) - {nr}
               && IsEnd(TableOf(d2), end - gone.sectionLength)
  {
    var gone := TableOf(d)[nr];
    LaterBlock(TableOf(d), nr, length, end, next, stateEnd);
    BlockCompacts(d, d1, gone, end);
    RemovedImage(d, length, MovedDown(d1, gone.offset, gone.End(), end - gone.End()), nr, end);
  }

  /** All but the table unchanged. */
  ghost predicate SameBehind(d: Bytes, d': Bytes) {
    && HEADER_SIZE <= |d| == |d'|
    && d'[10] == d[10] && d'[11] == d[11] && d'[HEADER_SIZE..] == d[HEADER_SIZE..]
  }

  ghost predicate EndSoFar(files: Table, n: nat, end: nat, length: nat)
    requires n <= MAX_STATES
  {
    && HEADER_SIZE <= end <= length && Anchored(files, end)
    && forall j :: 0 <= j < n && files[j].Allocated() ==> files[j].End() <= end
  }

  lemma EndStep(files: Table, n: nat, end: nat, length: nat)
    requires n < MAX_STATES && EndSoFar(files, n, end, length)
    requires files[n].Allocated() ==> HEADER_SIZE <= files[n].End() <= length
    ensures var end' := if files[n].Allocated() && files[n].End() > end then files[n].End() else end;
            EndSoFar(files, n + 1, end', length)
  {
  }

  /** Some entry ends last. */
  lemma {:induction false} EndUpTo(files: Table, n: nat, length: nat) returns (end: nat)
    requires n <= MAX_STATES && HEADER_SIZE <= length
    requires forall i :: 0 <= i < n && files[i].Allocated() ==> HEADER_SIZE <= files[i].End() <= length
    ensures EndSoFar(files, n, end, length)
  {
    if n == 0 {
      end := HEADER_SIZE;
    } else {
      end := EndUpTo(files, n - 1, length);
      EndStep(files, n - 1, end, length);
      end := if files[n - 1].Allocated() && files[n - 1].End() > end then files[n - 1].End() else end;
    }
  }

  lemma EndOfImage(d: Bytes, length: nat) returns (end: nat)
    requires ValidImage(d, length)
    ensures IsEnd(TableOf(d), end) && end <= length
  {
    forall i | 0 <= i < MAX_STATES && TableOf(d)[i].Allocated()
      ensures HEADER_SIZE <= TableOf(d)[i].End() <= length
    {
      assert SectionWithin(TableOf(d)[i], length);
    }
    end := EndUpTo(TableOf(d), MAX_STATES, length);
  }

  ghost predicate AllWithin(files: Table, length: nat) {
    forall i {:trigger SectionWithin(files[i], length)} ::
      0 <= i < MAX_STATES && files[i].Allocated() ==> SectionWithin(files[i], length)
  }

  lemma SpanStep(files: Table, nr: nat, n: nat, length: nat, next: nat, stateEnd: nat)
    requires nr < MAX_STATES && n < MAX_STATES && LaterSpan(files, nr, n, next, stateEnd)
    requires AllWithin(files, length) && length < 0x1_0000_0000
    ensures Later(files, nr, n) ==> files[n].End() < 0x1_0000_0000
    ensures if Later(files, nr, n)
            then LaterSpan(files, nr, n + 1,
                           if files[n].offset < next then files[n].offset else next,
                           if files[n].End() > stateEnd then files[n].End() else stateEnd)
            else LaterSpan(files, nr, n + 1, next, stateEnd)
  {
    if Later(files, nr, n) {
      assert SectionWithin(files[n], length);
      SpanExtended(files, nr, n, next, stateEnd);
    } else {
      SpanKept(files, nr, n, next, stateEnd);
    }
  }

  lemma SpanKept(files: Table, nr: nat, n: nat, next: nat, stateEnd: nat)
    requires nr < MAX_STATES && n < MAX_STATES && LaterSpan(files, nr, n, next, stateEnd)
    ensures LaterStart(files, nr, n, next) ==> LaterStart(files, nr, n + 1, next)
    ensures LaterEnd(files, nr, n, stateEnd) ==> LaterEnd(files, nr, n + 1, stateEnd)
    ensures !Later(files, nr, n) ==> LaterSpan(files, nr, n + 1, next, stateEnd)
  {
  }

  lemma SpanExtended(files: Table, nr: nat, n: nat, next: nat, stateEnd: nat)
    requires nr < MAX_STATES && n < MAX_STATES && LaterSpan(files, nr, n, next, stateEnd)
    requires Later(files, nr, n) && files[n].offset < 0xffff_ffff && files[n].End() > 0
    ensures LaterSpan(files, nr, n + 1,
                      if files[n].offset < next then files[n].offset else next,
                      if files[n].End() > stateEnd then files[n].End() else stateEnd)
  {
    SpanKept(files, nr, n, next, stateEnd);
    assert LaterStart(files, nr, n + 1, files[n].offset);
    assert LaterEnd(files, nr, n + 1, files[n].End());
  }

  /** The table in the middle of the loop: freed entry, shifted entries, old entries. */
  ghost predicate PartlyShifted(files: Table, t: Table, nr: nat, n: nat)
    requires nr < MAX_STATES && n <= MAX_STATES
  {
    forall i {:trigger t[i]} :: 0 <= i < MAX_STATES ==>
      t[i] == if i == nr then FREE else if i < n then ShiftedEntry(files[i], files[nr]) else files[i]
  }

  lemma PartlyStep(files: Table, d0: Bytes, d: Bytes, d': Bytes, nr: nat, n: nat)
    requires nr < MAX_STATES && n < MAX_STATES && SameBehind(d0, d)
    requires PartlyShifted(files, TableOf(d), nr, n)
    requires HeaderWritten(d, d', n, ShiftedEntry(TableOf(d)[n], files[nr]))
    ensures PartlyShifted(files, TableOf(d'), nr, n + 1) && SameBehind(d0, d')
  {
  }

  /** The loop invariant of RemoveFile. */
  ghost predicate Shifting(files: Table, d: Bytes, d': Bytes, nr: nat, n: nat, next: nat, stateEnd: nat)
    requires nr < MAX_STATES && n <= MAX_STATES
  {
    && SameBehind(d, d')
    && PartlyShifted(files, TableOf(d'), nr, n)
    && LaterSpan(files, nr, n, next, stateEnd)
  }

  lemma ShiftingStarts(files: Table, d: Bytes, d': Bytes, nr: nat)
    requires nr < MAX_STATES && HEADER_SIZE <= |d| && files == TableOf(d) && HeaderWritten(d, d', nr, FREE)
    ensures Shifting(files, d, d', nr, 0, 0xffff_ffff, 0)
  {
  }

  lemma ShiftingEnds(files: Table, d: Bytes, d': Bytes, nr: nat, next: nat, stateEnd: nat)
    requires nr < MAX_STATES && Shifting(files, d, d', nr, MAX_STATES, next, stateEnd)
    ensures TableOf(d') == Removed(files, nr) && SameBehind(d, d')
    ensures LaterSpan(files, nr, MAX_STATES, next, stateEnd)
  {
  }

  // ---- Ends, room and sections --------------------------------------------------------

  lemma LimitIsPower()
    ensures Pow2(27) == LIMIT
  {
    assert Pow2(9) == 512 && Pow2(18) == 512 * 512;
  }

  /** While sections are at most LIMIT bytes long there is always room in 32 bits. */
  lemma AlwaysRoom(d: Bytes, length: nat, size: nat)
    requires ValidImage(d, length) && SectionsUpTo(TableOf(d), LIMIT) && size <= LIMIT
    ensures RoomFor(TableOf(d), size)
  {
    var files := TableOf(d);
    LimitIsPower();
    forall end: nat, section: nat | IsEnd(files, end) && IsLeastPowerAbove(section, size)
      ensures end + section < 0x1_0000_0000
    {
      EndIsSumOfSections(files, length, end);
      SumBounded(files, LIMIT, |files|);
    }
  }

  lemma ForgottenTwice(m: map<int, Bytes>, nr: int)
    ensures (m - {nr}) - {nr} == m - {nr}
  {
  }

  lemma UpdateForgets(m: map<int, Bytes>, m': map<int, Bytes>, nr: int, bytes: Bytes)
    requires m - {nr} == m' - {nr}
    ensures m[nr := bytes] == m'[nr := bytes]
  {
    assert m[nr := bytes] == (m - {nr})[nr := bytes];
    assert m'[nr := bytes] == (m' - {nr})[nr := bytes];
  }

  lemma RemovedUpTo(files: Table, nr: nat, bound: nat)
    requires nr < MAX_STATES
    ensures SectionsUpTo(files, bound) ==> SectionsUpTo(Removed(files, nr), bound)
  {
  }

  lemma AllocatedUpTo(files: Table, nr: nat, e: FileEntry, size: nat)
    requires nr < MAX_STATES && IsLeastPowerAbove(e.sectionLength, size)
    ensures SectionsUpTo(files, LIMIT) && size <= LIMIT ==> SectionsUpTo(files[nr := e], LIMIT)
  {
    LimitIsPower();
  }

  lemma FileInImage(d: Bytes, length: nat, nr: nat)
    requires ValidImage(d, length) && nr < MAX_STATES
    ensures var e := TableOf(d)[nr];
            && (e.Allocated() <==> nr in FilesIn(d))
            && (e.Allocated() ==>
                  && e.offset as int + e.dataLength as int <= length
                  && FilesIn(d)[nr] == DataOf(e, d) && |DataOf(e, d)| == e.dataLength)
  {
    TiledArePresent(TableOf(d), length, d, nr);
    assert SectionWithin(TableOf(d)[nr], length) || !TableOf(d)[nr].Allocated();
  }

  lemma SectionIsPositive(files: Table, length: nat, nr: nat)
    requires Tiled(files, length) && nr < MAX_STATES && files[nr].Allocated()
    ensures files[nr].sectionLength > 0
  {
    assert SectionWithin(files[nr], length);
  }

  lemma EndUnique(files: Table, x: nat, y: nat)
    requires IsEnd(files, x) && IsEnd(files, y)
    ensures x == y
  {
  }

  /** End and section size are determined by the table and the size. */
  lemma OnlySection(files: Table, size: nat, end: nat, section: nat)
    requires IsEnd(files, end) && IsLeastPowerAbove(section, size)
    ensures forall end': nat, section': nat {:trigger IsEnd(files, end'), IsLeastPowerAbove(section', size)} ::
              IsEnd(files, end') && IsLeastPowerAbove(section', size) ==> end' == end && section' == section
  {
    forall end': nat, section': nat | IsEnd(files, end') && IsLeastPowerAbove(section', size)
      ensures end' == end && section' == section
    {
      EndUnique(files, end, end');
      LeastPowerUnique(section, section', size);
    }
  }

  /** A failing ftruncate under a store: the file ends up unmapped if and only if it was to
      grow, although its bytes are all still there. */
  lemma FailedGrowthUnmaps(capacity: nat, files: Table, nr: nat, size: nat, end: nat, section: nat)
    requires nr < MAX_STATES && NeedsSection(files[nr], size)
    requires IsEnd(Vacated(files, nr), end) && IsLeastPowerAbove(section, size)
    ensures StoreUnmaps(Resizable, Answer(true, true, false, true), capacity, files, nr, size)
            <==> end + section > capacity
  {
    OnlySection(Vacated(files, nr), size, end, section);
  }

  lemma VacatedEnd(files: Table, nr: nat, length: nat, end: nat)
    requires nr < MAX_STATES && Tiled(files, length) && IsEnd(files, end)
    ensures files[nr].Allocated() ==> files[nr].sectionLength <= end
    ensures IsEnd(Vacated(files, nr), if files[nr].Allocated() then end - files[nr].sectionLength else end)
  {
    if files[nr].Allocated() {
      RemoveMovesEnd(files, nr, length, end);
    }
  }

  lemma RoomAfterRemoval(d: Bytes, length: nat, nr: nat, size: nat)
    requires ValidImage(d, length) && nr < MAX_STATES && TableOf(d)[nr].Allocated()
    requires RoomFor(TableOf(d), size)
    ensures RoomFor(Removed(TableOf(d), nr), size)
  {
    var files := TableOf(d);
    var end := EndOfImage(d, length);
    RemoveMovesEnd(files, nr, length, end);
    forall end': nat | IsEnd(Removed(files, nr), end')
      ensures end' <= end
    {
      EndUnique(Removed(files, nr), end', end - files[nr].sectionLength);
    }
  }

  lemma AlwaysFits(d: Bytes, length: nat, nr: nat, size: nat)
    requires ValidImage(d, length) && SectionsUpTo(TableOf(d), LIMIT) && nr < MAX_STATES && size <= LIMIT
    ensures StoreFits(TableOf(d), nr, size)
  {
    AlwaysRoom(d, length, size);
    if TableOf(d)[nr].Allocated() {
      RoomAfterRemoval(d, length, nr, size);
    }
  }

  /** A zeroed table has no files, so there is nothing to tile. */
  lemma ZeroTable(d: Bytes)
    requires HEADER_SIZE <= |d| && forall y :: FILES_OFFSET <= y < HEADER_SIZE ==> d[y] == 0
    ensures forall i :: 0 <= i < MAX_STATES ==> !TableOf(d)[i].Allocated()
    ensures Tiled(TableOf(d), |d|) && ContentsOf(TableOf(d), d) == map[]
  {
    forall i | 0 <= i < MAX_STATES
      ensures !EntryAt(d, i).Allocated()
    {
      var at := FILES_OFFSET + ENTRY_SIZE * i;
      assert d[at..at + 4] == [0, 0, 0, 0];
    }
  }

  /** A header without any entry in it. */
  lemma FormattedImage(d: Bytes)
    requires HEADER_SIZE <= |d| < 0x1_0000_0000 && d[10] == HEADER_SIZE && d[11] == 0
    requires d[FILES_OFFSET..HEADER_SIZE] == Repeat(0, HEADER_SIZE - FILES_OFFSET)
    ensures ValidImage(d, |d|) && FilesIn(d) == map[]
  {
    forall y | FILES_OFFSET <= y < HEADER_SIZE
      ensures d[y] == 0
    {
      assert d[y] == d[FILES_OFFSET..HEADER_SIZE][y - FILES_OFFSET];
    }
    ZeroTable(d);
  }

  lemma SpliceEntry(d: Bytes, d': Bytes, i: nat, e: FileEntry)
    requires HEADER_SIZE <= |d| && i < MAX_STATES
    requires d' == Spliced(d, FILES_OFFSET + ENTRY_SIZE * i, EntryBytes(e))
    ensures HeaderWritten(d, d', i, e)
  {
    var at := FILES_OFFSET + ENTRY_SIZE * i;
    var bytes := EntryBytes(e);
    EntryWritten(d, d', i, e);
    SpliceElsewhere(d, d', at, bytes, 0, FILES_OFFSET);
    SpliceElsewhere(d, d', at, bytes, HEADER_SIZE, |d|);
    assert d'[..FILES_OFFSET][10] == d[..FILES_OFFSET][10] && d'[..FILES_OFFSET][11] == d[..FILES_OFFSET][11];
  }

  // ---- The plain map that a run is compared with -------------------------------------------

  /** What loading and checking a name answer, in terms of the abstract state. */
  function LoadResult(m: map<int, Bytes>, name: string): Result<Bytes> {
    match GetFileNr(name)
    case None => Err(Fail)
    case Some(nr) => if nr in m then Ok(m[nr]) else Err(Retry)
  }

  function SizeResult(m: map<int, Bytes>, name: string): Result<nat> {
    match LoadResult(m, name)
    case Ok(bytes) => Ok(|bytes|)
    case Err(rc) => Err(rc)
  }

  /** What storing may do: on success the name maps to the bytes; on failure the name may
      also have kept its bytes or, if its section had to be replaced, have lost them.
      In no case does another name change. */
  ghost predicate StoreOutcome(m: map<int, Bytes>, name: string, bytes: Bytes, rc: Rc, m': map<int, Bytes>) {
    match GetFileNr(name)
    case None => rc == Fail && m' == m
    case Some(nr) => FileOutcome(m, nr, bytes, rc, m')
  }

  ghost predicate FileOutcome(m: map<int, Bytes>, nr: nat, bytes: Bytes, rc: Rc, m': map<int, Bytes>) {
    m' == m[nr := bytes] || (rc != Success && (m' == m || m' == m - {nr}))
  }

  datatype Call =
    | StoreCall(name: string, bytes: Bytes)
    | DeleteCall(name: string)
    | LoadCall(name: string)
    | CheckCall(name: string)

  datatype CallResult = Done(rc: Rc) | Loaded(data: Result<Bytes>) | Checked(size: Result<nat>)

  ghost predicate MapStep(m: map<int, Bytes>, c: Call, a: CallResult, m': map<int, Bytes>) {
    match c
    case LoadCall(name) => a == Loaded(LoadResult(m, name)) && m' == m
    case CheckCall(name) => a == Checked(SizeResult(m, name)) && m' == m
    case DeleteCall(name) =>
      && a.Done?
      && (if GetFileNr(name).Some? then m' == m - {GetFileNr(name).value} else a.rc == Fail && m' == m)
    case StoreCall(name, bytes) => a.Done? && StoreOutcome(m, name, bytes, a.rc, m')
  }

  ghost predicate MapRun(m: map<int, Bytes>, calls: seq<Call>, answers: seq<CallResult>, m': map<int, Bytes>) {
    && |answers| == |calls|
    && if calls == [] then m' == m
       else
         var n := |calls| - 1;
         exists mid :: MapRun(m, calls[..n], answers[..n], mid) && MapStep(mid, calls[n], answers[n], m')
  }

  lemma RunExtended(m: map<int, Bytes>, calls: seq<Call>, i: nat, answers: seq<CallResult>,
                    mid: map<int, Bytes>, a: CallResult, m': map<int, Bytes>)
    requires i < |calls| && MapRun(m, calls[..i], answers, mid) && MapStep(mid, calls[i], a, m')
    ensures MapRun(m, calls[..i + 1], answers + [a], m')
  {
    var calls', answers' := calls[..i + 1], answers + [a];
    assert calls'[..i] == calls[..i] && answers'[..i] == answers;
  }

  // ---- The store --------------------------------------------------------------------

  class Store {
    var data: array<Byte>
    var length: nat
    const backing: Backing
    /** How the environment answers, and how often it has been asked. */
    const env: nat -> Answer
    var asked: nat
    /** The buffer is mapped.  `data` is what the file holds either way; without a mapping
        the process cannot get at it, and `length` is of no account. */
    var mapped: bool

    ghost predicate Valid()
      reads this`data, this`length, this`mapped, data
    {
      ValidImage(data[..], if mapped then length else data.Length)
    }

    ghost function Files(): Table
      requires HEADER_SIZE <= data.Length
      reads this`data, data
    {
      TableOf(data[..])
    }

    /** The abstract state: file number to bytes. */
    ghost function Contents(): map<int, Bytes>
      requires HEADER_SIZE <= data.Length
      reads this`data, data
    {
      FilesIn(data[..])
    }

    /** Prepare_Linear on a buffer without the magic: format it as an empty store. */
    constructor Format(d: array<Byte>, b: Backing, env: nat -> Answer)
      requires HEADER_SIZE <= d.Length < 0x1_0000_0000
      modifies d
      ensures Valid() && mapped && data == d && length == d.Length && backing == b && this.env == env && asked == 0
      ensures Contents() == map[]
      ensures d[..9] == MAGIC_AND_VERSION && d[9] == old(d[9]) && d[10] == HEADER_SIZE && d[11] == 0
      ensures d[HEADER_SIZE..] == old(d[HEADER_SIZE..])
    {
      data, length, backing, this.env, asked, mapped := d, d.Length, b, env, 0, true;
      new;
      ghost var d0 := d[..];
      Memcpy(d, 0, MAGIC_AND_VERSION);
      d[10], d[11] := HEADER_SIZE, 0;
      assert d[..9] == MAGIC_AND_VERSION && d[9..10] == d0[9..10] && d[12..] == d0[12..];
      Memcpy(d, FILES_OFFSET, Repeat(0, HEADER_SIZE - FILES_OFFSET));
      FormattedImage(d[..]);
    }

    // ---- Table access -----------------------------------------------------------------

    method WriteEntry(i: nat, e: FileEntry)
      requires HEADER_SIZE <= data.Length && i < MAX_STATES
      modifies data
      ensures HeaderWritten(old(data[..]), data[..], i, e)
    {
      var at := FILES_OFFSET + ENTRY_SIZE * i;
      var bytes := EntryBytes(e);
      ghost var d := data[..];
      Memcpy(data, at, bytes);
      SpliceEntry(d, data[..], i, e);
    }

    /** The loop of AllocFile: the end of the current last file. */
    method FindEnd() returns (end: Word32)
      requires Valid() && mapped
      ensures IsEnd(Files(), end) && end <= length
    {
      ghost var files := Files();
      end := data[10] as int + 256 * data[11] as int;
      for i := 0 to MAX_STATES
        invariant EndSoFar(files, i, end, length)
      {
        var file := EntryAt(data[..], i);
        assert file == files[i];
        assert file.Allocated() ==> SectionWithin(files[i], length);
        EndStep(files, i, end, length);
        if file.Allocated() {
          var curEnd := file.offset as int + file.sectionLength as int;
          if curEnd > end {
            end := curEnd;
          }
        }
      }
    }

    // ---- Resizing ----------------------------------------------------------------------

    /** SWTPM_NVRAM_LinearFile_Resize: a file is flushed, unmapped, truncated and mapped
        anew; once it is unmapped, a failure leaves it so, at the size it then has.  The file
        keeps its bytes up to the smaller of both sizes. */
    method Resize(requested: nat) returns (rc: Rc, newLength: nat)
      requires mapped && data.Length < 0x1_0000_0000 && requested < 0x1_0000_0000
      modifies this`data, this`mapped
      ensures fresh(data) || data == old(data)
      ensures data.Length == if backing != FixedSize && env(asked).Truncates() then requested else old(data.Length)
      ensures var keep := if requested < old(data.Length) then requested else old(data.Length);
              data[..keep] == old(data[..keep])
      ensures mapped && rc != Success ==> data == old(data)
      ensures rc != Success ==> rc == if backing == FixedSize then Size else Fail
      ensures rc == Success ==> mapped && newLength == data.Length && requested <= newLength
      ensures backing == FixedSize ==> mapped && data == old(data) && (rc == Success <==> requested <= data.Length)
      ensures backing != FixedSize ==>
        && (rc == Success <==> env(asked).Resizes(requested > old(data.Length)))
        && (mapped <==> !env(asked).Drops(requested > old(data.Length)))
    {
      newLength := data.Length;
      if backing == FixedSize {
        rc := if data.Length < requested then Size else Success;
        return;
      }
      var answer := env(asked);
      if !answer.flushed || !answer.unmapped {
        return Fail, newLength;
      }
      mapped := false;
      if answer.truncated {
        Truncate(requested);
      } else if data.Length < requested {
        return Fail, newLength;
      }
      if !answer.remapped {
        return Fail, newLength;
      }
      newLength := data.Length;
      mapped := true;
      rc := Success;
    }

    /** ftruncate: the file is cut off, or filled up with zeroes. */
    method Truncate(requested: nat)
      modifies this`data
      ensures fresh(data) && data.Length == requested
      ensures var keep := if requested < old(data.Length) then requested else old(data.Length);
              data[..keep] == old(data[..keep])
    {
      var keep := if requested < data.Length then requested else data.Length;
      var d := new Byte[requested](_ => 0);
      Memcpy(d, 0, data[..keep]);
      data := d;
    }

    /** A resize to a size not below the end of the last section keeps all files. */
    method SafeResize(newSize: nat, ghost end: nat) returns (rc: Rc)
      requires Valid() && mapped && IsEnd(Files(), end) && end <= length && end <= newSize < 0x1_0000_0000
      modifies this`data, this`length, this`asked, this`mapped
      ensures Valid() && (fresh(data) || data == old(data)) && asked == old(asked) + 1
      ensures Files() == old(Files()) && Contents() == old(Contents()) && end <= length
      ensures rc == Success ==> newSize <= length && mapped
      ensures rc != Success ==> length == old(length) && (mapped ==> data == old(data))
      ensures rc != Success ==> rc == if backing == Resizable then Fail else Size
      ensures rc == Success <==> backing.Grants(env(old(asked)), newSize, old(data.Length), old(length))
      ensures mapped <==> !backing.Unmaps(env(old(asked)), newSize, old(data.Length))
    {
      ghost var d, len := data[..], length;
      if backing == NoResizeOp {
        asked := asked + 1;
        return if newSize < length then Success else Size;
      }
      var result;
      rc, result := Resize(newSize);
      asked := asked + 1;
      PrefixSlice(d, data[..], if newSize < |d| then newSize else |d|, 0, end);
      ResizedImage(d, len, data[..], data.Length, end);
      if rc != Success {
        return;
      }
      length := result;
      if result < newSize {
        rc := Size;
      }
    }

    // ---- Allocation and removal ----------------------------------------------------------

    /** No resize of the file ends without a mapping. */
    ghost predicate NeverDrops()
      reads this
    {
      backing == Resizable ==> forall n: nat :: !env(n).Drops(true)
    }

    method AllocFile(nr: nat, size: Word32) returns (rc: Rc)
      requires Valid() && mapped && nr < MAX_STATES && !Files()[nr].Allocated()
      requires 0 < size <= 0x8000_0000 && RoomFor(Files(), size)
      modifies this`data, this`length, this`asked, this`mapped, data
      ensures Valid() && (fresh(data) || data == old(data))
      ensures rc != Success ==> Files() == old(Files()) && Contents() == old(Contents())
      ensures rc == Success ==>
        && Files() == old(Files())[nr := Files()[nr]]
        && Files()[nr].Allocated() && Files()[nr].dataLength == size
        && IsLeastPowerAbove(Files()[nr].sectionLength, size)
        && IsEnd(old(Files()), Files()[nr].offset)
        && Contents() - {nr} == old(Contents()) - {nr}
      ensures asked == old(asked) + 1 && (rc == Success ==> mapped)
      ensures rc == Success <==>
              GrantsSection(backing, env(old(asked)), old(data.Length), old(length), old(Files()), size)
      ensures mapped <==> !SectionUnmaps(backing, env(old(asked)), old(data.Length), old(Files()), size)
      ensures SectionsUpTo(old(Files()), LIMIT) && size <= LIMIT ==> SectionsUpTo(Files(), LIMIT)
      ensures NeverDrops() ==> mapped
    {
      var e;
      rc, e := MakeRoom(size);
      AllocatedUpTo(Files(), nr, e, size);
      if rc == Success {
        PlaceFile(nr, e);
      }
    }

    /** The head of AllocFile: round the size, find the end, and resize. */
    method MakeRoom(size: Word32) returns (rc: Rc, e: FileEntry)
      requires Valid() && mapped && 0 < size <= 0x8000_0000 && RoomFor(Files(), size)
      modifies this`data, this`length, this`asked, this`mapped
      ensures Valid() && (fresh(data) || data == old(data))
      ensures Files() == old(Files()) && Contents() == old(Contents())
      ensures e.dataLength == size && IsLeastPowerAbove(e.sectionLength, size)
      ensures IsEnd(Files(), e.offset) && (rc == Success ==> e.End() <= length)
      ensures asked == old(asked) + 1 && (rc == Success ==> mapped)
      ensures rc == Success <==>
              GrantsSection(backing, env(old(asked)), old(data.Length), old(length), old(Files()), size)
      ensures mapped <==> !SectionUnmaps(backing, env(old(asked)), old(data.Length), old(Files()), size)
      ensures NeverDrops() ==> mapped
    {
      var section := RoundToNextPowerOf2(size);
      var newOffset := FindEnd();
      e := FileEntry(newOffset, size, section);
      OnlySection(Files(), size, newOffset, section);
      rc := SafeResize(newOffset as int + section as int, newOffset);
    }

    /** The tail of AllocFile: fill in the table entry. */
    method PlaceFile(nr: nat, e: FileEntry)
      requires Valid() && mapped && nr < MAX_STATES && !Files()[nr].Allocated()
      requires IsEnd(Files(), e.offset) && SectionWithin(e, length)
      modifies data
      ensures Valid() && Files() == old(Files())[nr := e]
      ensures Contents() - {nr} == old(Contents()) - {nr}
    {
      ghost var d := data[..];
      WriteEntry(nr, e);
      AllocatedImage(d, length, data[..], nr, e);
    }

    /** The loop of RemoveFile: find the block of later sections, adjust their offsets. */
    method ShiftOffsets(nr: nat) returns (next: Word32, stateEnd: Word32)
      requires Valid() && mapped && nr < MAX_STATES && Files()[nr].Allocated()
      modifies data
      ensures Files() == Removed(old(Files()), nr)
      ensures SameBehind(old(data[..]), data[..])
      ensures LaterSpan(old(Files()), nr, MAX_STATES, next, stateEnd)
    {
      ghost var files, d := Files(), data[..];
      var gone := EntryAt(data[..], nr);
      WriteEntry(nr, FREE);
      ShiftingStarts(files, d, data[..], nr);
      next, stateEnd := ShiftLater(files, d, nr, gone);
      ShiftingEnds(files, d, data[..], nr, next, stateEnd);
    }

    /** The loop over the table. */
    method ShiftLater(ghost files: Table, ghost d: Bytes, ghost nr: nat, gone: FileEntry)
      returns (next: Word32, stateEnd: Word32)
      requires nr < MAX_STATES && gone == files[nr] && AllWithin(files, length) && length < 0x1_0000_0000
      requires Shifting(files, d, data[..], nr, 0, 0xffff_ffff, 0)
      modifies data
      ensures Shifting(files, d, data[..], nr, MAX_STATES, next, stateEnd)
    {
      next, stateEnd := 0xffff_ffff, 0;
      for i := 0 to MAX_STATES
        invariant Shifting(files, d, data[..], nr, i, next, stateEnd)
      {
        next, stateEnd := ShiftOne(files, d, nr, i, gone, next, stateEnd);
      }
    }

    method ShiftOne(ghost files: Table, ghost d: Bytes, ghost nr: nat, i: nat,
                    gone: FileEntry, next: Word32, stateEnd: Word32)
      returns (next': Word32, stateEnd': Word32)
      requires nr < MAX_STATES && i < MAX_STATES && gone == files[nr]
      requires AllWithin(files, length) && length < 0x1_0000_0000
      requires Shifting(files, d, data[..], nr, i, next, stateEnd)
      modifies data
      ensures Shifting(files, d, data[..], nr, i + 1, next', stateEnd')
    {
      ghost var d1 := data[..];
      var file := ShiftEntry(i, gone);
      PartlyStep(files, d, d1, data[..], nr, i);
      next', stateEnd' := TrackSpan(files, nr, i, length, file, gone, next, stateEnd);
    }

    /** The bookkeeping of one iteration. */
    static method TrackSpan(ghost files: Table, ghost nr: nat, ghost n: nat, ghost length: nat,
                            file: FileEntry, gone: FileEntry, next: Word32, stateEnd: Word32)
      returns (next': Word32, stateEnd': Word32)
      requires nr < MAX_STATES && n < MAX_STATES && AllWithin(files, length) && length < 0x1_0000_0000
      requires gone == files[nr] && file == (if n == nr then FREE else files[n])
      requires LaterSpan(files, nr, n, next, stateEnd)
      ensures LaterSpan(files, nr, n + 1, next', stateEnd')
    {
      next', stateEnd' := next, stateEnd;
      SpanStep(files, nr, n, length, next, stateEnd);
      if file.Allocated() && file.offset > gone.offset {
        assert Later(files, nr, n);
        if file.offset < next {
          next' := file.offset;
        }
        var curEnd := file.offset as int + file.sectionLength as int;
        if curEnd > stateEnd {
          stateEnd' := curEnd;
        }
      } else {
        assert !Later(files, nr, n);
      }
    }

    /** Free a table entry and close the gap its section leaves. */
    method RemoveSection(nr: nat) returns (gone: FileEntry, ghost end: nat)
      requires Valid() && mapped && nr < MAX_STATES && Files()[nr].Allocated()
      modifies data
      ensures Valid() && Files() == Removed(old(Files()), nr) && gone == old(Files()[nr])
      ensures Contents() == old(Contents()) - {nr}
      ensures IsEnd(Files(), end) && end + gone.sectionLength <= length && gone.sectionLength > 0
    {
      ghost var d := data[..];
      end := EndOfImage(d, length);
      SectionIsPositive(Files(), length, nr);
      gone := EntryAt(data[..], nr);
      var next, stateEnd := ShiftOffsets(nr);
      GapClosed(d, data[..], length, nr, end, next, stateEnd);
      CloseGap(gone.offset, next, stateEnd);
      end := end - gone.sectionLength;
    }

    /** The memmove of RemoveFile, if there is anything behind the removed section. */
    method CloseGap(offset: Word32, next: Word32, stateEnd: Word32)
      requires next != 0xffff_ffff ==> offset <= next <= stateEnd <= data.Length
      modifies data
      ensures data[..] == GapClosedBytes(old(data[..]), offset, next, stateEnd)
    {
      if next != 0xffff_ffff {
        MemmoveDown(data, offset, next, stateEnd - next);
      }
    }

    method RemoveFile(nr: nat, resize: bool) returns (rc: Rc)
      requires Valid() && mapped && nr < MAX_STATES
      modifies this`data, this`length, this`asked, this`mapped, data
      ensures Valid() && (fresh(data) || data == old(data))
      ensures Contents() == old(Contents()) - {nr} && !Files()[nr].Allocated()
      ensures Files() == if old(Files()[nr].Allocated()) then Removed(old(Files()), nr) else old(Files())
      ensures !resize ==> rc == Success && data == old(data) && length == old(length) && asked == old(asked) && mapped
      ensures old(Files()[nr].Allocated()) && resize ==>
        && asked == old(asked) + 1
        && rc == (if backing != Resizable || env(old(asked)).Resizes(false) then Success else Fail)
        && (mapped <==> backing != Resizable || !env(old(asked)).Drops(false))
      ensures !old(Files()[nr].Allocated()) ==> rc == Success && mapped && asked == old(asked)
      ensures SectionsUpTo(old(Files()), LIMIT) ==> SectionsUpTo(Files(), LIMIT)
    {
      RemovedUpTo(Files(), nr, LIMIT);
      rc := Success;
      if !EntryAt(data[..], nr).Allocated() {
        NotAllocated(data[..], nr);
        return;
      }
      var gone, end := RemoveSection(nr);
      if resize {
        rc := GiveBack(gone.sectionLength, end);
      }
    }

    /** The tail of RemoveFile: offer the freed bytes to the backing store. */
    method GiveBack(sectionLength: Word32, ghost end: nat) returns (rc: Rc)
      requires Valid() && mapped && IsEnd(Files(), end) && end + sectionLength <= length && sectionLength > 0
      modifies this`data, this`length, this`asked, this`mapped
      ensures Valid() && (fresh(data) || data == old(data))
      ensures Files() == old(Files()) && Contents() == old(Contents()) && asked == old(asked) + 1
      ensures rc == if backing != Resizable || env(old(asked)).Resizes(false) then Success else Fail
      ensures mapped <==> backing != Resizable || !env(old(asked)).Drops(false)
    {
      var newLen := length - sectionLength;
      rc := SafeResize(newLen, end);
      if rc == Success {
        ShrunkImage(data[..], length, newLen, end);
        length := newLen;
      }
    }

    // ---- The backend operations ------------------------------------------------------------

    /** flush: writing through may fail, memory is as it is. */
    method Flush() returns (rc: Rc)
      requires Valid() && mapped
      modifies this`asked
      ensures Valid() && Files() == old(Files()) && Contents() == old(Contents())
      ensures asked == old(asked) + 1 && rc == if env(old(asked)).flushed then Success else Fail
    {
      rc := if env(asked).flushed then Success else Fail;
      asked := asked + 1;
    }

    method LoadData(name: string) returns (r: Result<Bytes>)
      requires Valid() && mapped
      ensures r == LoadResult(Contents(), name)
    {
      var nr := GetFileNr(name);
      if nr.None? {
        return Err(Fail);
      }
      r := LoadFile(nr.value);
    }

    method LoadFile(nr: nat) returns (r: Result<Bytes>)
      requires Valid() && mapped && nr < MAX_STATES
      ensures r == if nr in Contents() then Ok(Contents()[nr]) else Err(Retry)
    {
      FileInImage(data[..], length, nr);
      var file := EntryAt(data[..], nr);
      if !file.Allocated() {
        return Err(Retry);
      }
      if file.offset as int + file.dataLength as int > length {
        return Err(Fail);
      }
      r := Ok(DataOf(file, data[..]));
    }

    method CheckState(name: string) returns (r: Result<nat>)
      requires Valid() && mapped
      ensures r == SizeResult(Contents(), name)
    {
      var nr := GetFileNr(name);
      if nr.None? {
        return Err(Fail);
      }
      r := CheckFile(nr.value);
    }

    method CheckFile(nr: nat) returns (r: Result<nat>)
      requires Valid() && mapped && nr < MAX_STATES
      ensures r == if nr in Contents() then Ok(|Contents()[nr]|) else Err(Retry)
    {
      FileInImage(data[..], length, nr);
      var file := EntryAt(data[..], nr);
      r := if file.Allocated() then Ok(file.dataLength) else Err(Retry);
    }

    /** The next answers make a deletion lose the mapping. */
    ghost predicate WillUnmapOnDelete(nr: nat)
      requires nr < MAX_STATES && HEADER_SIZE <= data.Length
      reads this, data
    {
      DeleteUnmaps(backing, env(asked), Files()[nr].Allocated())
    }

    method DeleteName(name: string) returns (rc: Rc)
      requires Valid() && mapped
      modifies this`data, this`length, this`asked, this`mapped, data
      ensures Valid() && (fresh(data) || data == old(data))
      ensures GetFileNr(name).None? ==>
        rc == Fail && Contents() == old(Contents()) && Files() == old(Files()) && mapped
      ensures GetFileNr(name).Some? ==>
        var nr := GetFileNr(name).value;
        && Contents() == old(Contents()) - {nr}
        && rc == DeleteResult(backing, env, old(asked), old(Files()[nr].Allocated()))
        && (mapped <==> !old(WillUnmapOnDelete(nr)))
      ensures SectionsUpTo(old(Files()), LIMIT) ==> SectionsUpTo(Files(), LIMIT)
      ensures rc == Success || NeverDrops() ==> mapped
    {
      var nr := GetFileNr(name);
      if nr.None? {
        return Fail;
      }
      rc := DeleteFile(nr.value);
    }

    method DeleteFile(nr: nat) returns (rc: Rc)
      requires Valid() && mapped && nr < MAX_STATES
      modifies this`data, this`length, this`asked, this`mapped, data
      ensures Valid() && (fresh(data) || data == old(data))
      ensures Contents() == old(Contents()) - {nr}
      ensures rc == DeleteResult(backing, env, old(asked), old(Files()[nr].Allocated()))
      ensures mapped <==> !DeleteUnmaps(backing, env(old(asked)), old(Files()[nr].Allocated()))
      ensures SectionsUpTo(old(Files()), LIMIT) ==> SectionsUpTo(Files(), LIMIT)
    {
      ghost var was;
      rc, was := RemoveAndShrink(nr);
      if rc == Success {
        rc := Flush();
      }
    }

    /** RemoveFile with resize, as far as its caller needs to know. */
    method RemoveAndShrink(nr: nat) returns (rc: Rc, ghost was: bool)
      requires Valid() && mapped && nr < MAX_STATES
      modifies this`data, this`length, this`asked, this`mapped, data
      ensures Valid() && (fresh(data) || data == old(data))
      ensures Contents() == old(Contents()) - {nr}
      ensures was == old(Files()[nr].Allocated())
      ensures rc == if was && backing == Resizable && !env(old(asked)).Resizes(false) then Fail else Success
      ensures mapped <==> !DeleteUnmaps(backing, env(old(asked)), was)
      ensures asked == if was then old(asked) + 1 else old(asked)
      ensures SectionsUpTo(old(Files()), LIMIT) ==> SectionsUpTo(Files(), LIMIT)
    {
      was := Files()[nr].Allocated();
      rc := RemoveFile(nr, true);
    }

    /** The first half of StoreData: make sure that the file has a section for `size`
        bytes, by allocating one or by removing the file and allocating it again. */
    method EnsureSection(nr: nat, size: Word32) returns (rc: Rc)
      requires Valid() && mapped && nr < MAX_STATES && 0 < size <= 0x8000_0000
      requires StoreFits(Files(), nr, size)
      modifies this`data, this`length, this`asked, this`mapped, data
      ensures Valid() && (fresh(data) || data == old(data))
      ensures Contents() - {nr} == old(Contents()) - {nr}
      ensures rc == Success ==> !NeedsSection(Files()[nr], size)
      ensures rc != Success ==> Contents() == old(Contents()) || Contents() == old(Contents()) - {nr}
      ensures asked == old(asked) + (if NeedsSection(old(Files()[nr]), size) then 1 else 0)
      ensures rc == Success <==>
              StoreGranted(backing, env(old(asked)), old(data.Length), old(length), old(Files()), nr, size)
      ensures mapped <==> !StoreUnmaps(backing, env(old(asked)), old(data.Length), old(Files()), nr, size)
      ensures rc == Success ==> mapped
      ensures SectionsUpTo(old(Files()), LIMIT) && size <= LIMIT ==> SectionsUpTo(Files(), LIMIT)
      ensures NeverDrops() ==> mapped
    {
      rc := Success;
      var file := EntryAt(data[..], nr);
      if !NeedsSection(file, size) {
        return;
      }
      if file.Allocated() {
        rc := Reallocate(nr, size);
      } else {
        rc := AllocFile(nr, size);
      }
    }

    method Reallocate(nr: nat, size: Word32) returns (rc: Rc)
      requires Valid() && mapped && nr < MAX_STATES && 0 < size <= 0x8000_0000
      requires Files()[nr].Allocated() && RoomFor(Removed(Files(), nr), size)
      modifies this`data, this`length, this`asked, this`mapped, data
      ensures Valid() && (fresh(data) || data == old(data))
      ensures Contents() - {nr} == old(Contents()) - {nr}
      ensures rc == Success ==> !NeedsSection(Files()[nr], size)
      ensures rc != Success ==> Contents() == old(Contents()) - {nr}
      ensures asked == old(asked) + 1 && (rc == Success ==> mapped)
      ensures rc == Success <==>
              GrantsSection(backing, env(old(asked)), old(data.Length), old(length), Removed(old(Files()), nr), size)
      ensures mapped <==> !SectionUnmaps(backing, env(old(asked)), old(data.Length), Removed(old(Files()), nr), size)
      ensures SectionsUpTo(old(Files()), LIMIT) && size <= LIMIT ==> SectionsUpTo(Files(), LIMIT)
      ensures NeverDrops() ==> mapped
    {
      ForgottenTwice(Contents(), nr);
      rc := RemoveFile(nr, false);
      rc := AllocFile(nr, size);
    }

    /** The second half of StoreData: record the new length and copy the bytes in. */
    method WriteFile(nr: nat, filedata: Bytes)
      requires Valid() && mapped && nr < MAX_STATES && !NeedsSection(Files()[nr], |filedata|)
      modifies data
      ensures Valid() && Contents() == old(Contents())[nr := filedata]
      ensures Files() == old(Files())[nr := old(Files()[nr]).(dataLength := |filedata|)]
    {
      RecordLength(nr, |filedata|);
      UpdateForgets(old(Contents()), Contents(), nr, filedata);
      BytesCopied(data[..], length, nr, filedata);
      var file := EntryAt(data[..], nr);
      Memcpy(data, file.offset, filedata);
    }

    method RecordLength(nr: nat, n: Word32)
      requires Valid() && mapped && nr < MAX_STATES && !NeedsSection(Files()[nr], n)
      modifies data
      ensures Valid() && Contents() - {nr} == old(Contents()) - {nr}
      ensures Files() == old(Files())[nr := old(Files()[nr]).(dataLength := n)]
    {
      ghost var d := data[..];
      var file := EntryAt(data[..], nr);
      if n != file.dataLength {
        WriteEntry(nr, file.(dataLength := n));
        LengthRecorded(d, data[..], length, nr, n);
      }
    }

    /** The next answers of the system let a store of `size` bytes succeed. */
    ghost predicate WillStore(nr: nat, size: nat)
      requires nr < MAX_STATES && HEADER_SIZE <= data.Length
      reads this, data
    {
      && StoreGranted(backing, env(asked), data.Length, length, Files(), nr, size)
      && env(asked + (if NeedsSection(Files()[nr], size) then 1 else 0)).flushed
    }

    /** They make it lose the mapping. */
    ghost predicate WillUnmap(nr: nat, size: nat)
      requires nr < MAX_STATES && HEADER_SIZE <= data.Length
      reads this, data
    {
      StoreUnmaps(backing, env(asked), data.Length, Files(), nr, size)
    }

    method StoreFile(nr: nat, filedata: Bytes) returns (rc: Rc)
      requires Valid() && mapped && nr < MAX_STATES && 0 < |filedata| <= 0x8000_0000
      requires StoreFits(Files(), nr, |filedata|)
      modifies this`data, this`length, this`asked, this`mapped, data
      ensures Valid() && (fresh(data) || data == old(data))
      ensures FileOutcome(old(Contents()), nr, filedata, rc, Contents())
      ensures rc == Success <==> old(WillStore(nr, |filedata|))
      ensures mapped <==> !old(WillUnmap(nr, |filedata|))
      ensures SectionsUpTo(old(Files()), LIMIT) && |filedata| <= LIMIT ==> SectionsUpTo(Files(), LIMIT)
      ensures (rc == Success ==> mapped) && (NeverDrops() ==> mapped)
    {
      rc := EnsureSection(nr, |filedata|);
      if rc != Success {
        return;
      }
      UpdateForgets(old(Contents()), Contents(), nr, filedata);
      WriteFile(nr, filedata);
      rc := Flush();
    }

    method StoreData(name: string, filedata: Bytes) returns (rc: Rc)
      requires Valid() && mapped && 0 < |filedata| <= 0x8000_0000
      requires Fits(name, |filedata|)
      modifies this`data, this`length, this`asked, this`mapped, data
      ensures Valid() && (fresh(data) || data == old(data))
      ensures StoreOutcome(old(Contents()), name, filedata, rc, Contents())
      ensures GetFileNr(name).None? ==> rc == Fail && mapped
      ensures GetFileNr(name).Some? ==>
        var nr := GetFileNr(name).value;
        && (rc == Success <==> old(WillStore(nr, |filedata|)))
        && (mapped <==> !old(WillUnmap(nr, |filedata|)))
      ensures SectionsUpTo(old(Files()), LIMIT) && |filedata| <= LIMIT ==> SectionsUpTo(Files(), LIMIT)
      ensures (rc == Success ==> mapped) && (NeverDrops() ==> mapped)
    {
      var nr := GetFileNr(name);
      if nr.None? {
        return Fail;
      }
      rc := StoreFile(nr.value, filedata);
    }

    /** 32-bit offsets can address a store of `size` bytes under the name. */
    ghost predicate Fits(name: string, size: nat)
      requires HEADER_SIZE <= data.Length
      reads this`data, data
    {
      GetFileNr(name).Some? ==> StoreFits(Files(), GetFileNr(name).value, size)
    }

    ghost predicate CallFits(c: Call)
      requires HEADER_SIZE <= data.Length
      reads this`data, data
    {
      c.StoreCall? ==> Fits(c.name, |c.bytes|)
    }

    /** Any run of backend calls agrees with a plain map from file number to bytes, for as
        long as 32-bit offsets can address what is stored and the buffer is mapped. */
    method Run(calls: seq<Call>) returns (results: seq<CallResult>)
      requires Valid() && mapped && forall c :: c in calls && c.StoreCall? ==> 0 < |c.bytes| <= 0x8000_0000
      modifies this`data, this`length, this`asked, this`mapped, data
      ensures Valid() && |results| <= |calls|
      ensures MapRun(old(Contents()), calls[..|results|], results, Contents())
      ensures |results| < |calls| ==> !mapped || !CallFits(calls[|results|])
      ensures NeverDrops() ==> mapped
    {
      results := [];
      for i := 0 to |calls|
        invariant Valid() && (fresh(data) || data == old(data)) && |results| == i
        invariant MapRun(old(Contents()), calls[..i], results, Contents()) && (NeverDrops() ==> mapped)
      {
        if !mapped {
          return;
        }
        ghost var m := Contents();
        assert calls[i] in calls;
        var fits := CheckCallFits(calls[i]);
        if !fits {
          return;
        }
        var a := Perform(calls[i]);
        RunExtended(old(Contents()), calls, i, results, m, a, Contents());
        results := results + [a];
      }
      assert calls[..|calls|] == calls;
    }

    method CheckCallFits(c: Call) returns (fits: bool)
      requires Valid() && mapped && (c.StoreCall? ==> 0 < |c.bytes| <= 0x8000_0000)
      ensures fits <==> CallFits(c)
    {
      fits := true;
      if c.StoreCall? {
        fits := CheckFits(c.name, |c.bytes|);
      }
    }

    method CheckFits(name: string, size: Word32) returns (fits: bool)
      requires Valid() && mapped && 0 < size <= 0x8000_0000
      ensures fits <==> Fits(name, size)
    {
      var nr := GetFileNr(name);
      fits := true;
      if nr.Some? && NeedsSection(EntryAt(data[..], nr.value), size) {
        fits := HasRoom(nr.value, size);
      }
    }

    /** Whether the end, once an old section is gone, and the new section stay below 2^32. */
    method HasRoom(nr: nat, size: Word32) returns (room: bool)
      requires Valid() && mapped && nr < MAX_STATES && 0 < size <= 0x8000_0000
      ensures room <==> RoomFor(Vacated(Files(), nr), size)
    {
      var section := RoundToNextPowerOf2(size);
      var end := FindEnd();
      var file := EntryAt(data[..], nr);
      VacatedEnd(Files(), nr, length, end);
      var newOffset := if file.Allocated() then end - file.sectionLength else end;
      room := newOffset as int + section as int < 0x1_0000_0000;
      OnlySection(Vacated(Files(), nr), size, newOffset, section);
    }

    /** Blobs of at most LIMIT bytes always fit, so such a run stops only when the mapping
        is lost. */
    method RunOfSmallBlobs(calls: seq<Call>) returns (results: seq<CallResult>)
      requires Valid() && mapped && SectionsUpTo(Files(), LIMIT)
      requires forall c :: c in calls && c.StoreCall? ==> 0 < |c.bytes| <= LIMIT
      modifies this`data, this`length, this`asked, this`mapped, data
      ensures Valid() && SectionsUpTo(Files(), LIMIT) && |results| <= |calls|
      ensures MapRun(old(Contents()), calls[..|results|], results, Contents())
      ensures |results| < |calls| ==> !mapped
      ensures NeverDrops() ==> mapped
    {
      results := [];
      for i := 0 to |calls|
        invariant Valid() && SectionsUpTo(Files(), LIMIT) && (fresh(data) || data == old(data)) && |results| == i
        invariant MapRun(old(Contents()), calls[..i], results, Contents()) && (NeverDrops() ==> mapped)
      {
        if !mapped {
          return;
        }
        ghost var m := Contents();
        assert calls[i] in calls;
        if calls[i].StoreCall? && GetFileNr(calls[i].name).Some? {
          AlwaysFits(data[..], length, GetFileNr(calls[i].name).value, |calls[i].bytes|);
        }
        var a := Perform(calls[i]);
        RunExtended(old(Contents()), calls, i, results, m, a, Contents());
        results := results + [a];
      }
      assert calls[..|calls|] == calls;
    }

    method Perform(c: Call) returns (a: CallResult)
      requires Valid() && mapped && CallFits(c) && (c.StoreCall? ==> 0 < |c.bytes| <= 0x8000_0000)
      modifies this`data, this`length, this`asked, this`mapped, data
      ensures Valid() && (fresh(data) || data == old(data))
      ensures MapStep(old(Contents()), c, a, Contents()) && (NeverDrops() ==> mapped)
      ensures SectionsUpTo(old(Files()), LIMIT) && (c.StoreCall? ==> |c.bytes| <= LIMIT) ==> SectionsUpTo(Files(), LIMIT)
    {
      match c
      case LoadCall(name) =>
        var r := LoadData(name);
        a := Loaded(r);
      case CheckCall(name) =>
        var r := CheckState(name);
        a := Checked(r);
      case DeleteCall(name) =>
        var rc := DeleteName(name);
        a := Done(rc);
      case StoreCall(name, bytes) =>
        var rc := StoreData(name, bytes);
        a := Done(rc);
    }

    /** Adjust the offset of one entry, if it lies behind the removed section. */
    method ShiftEntry(i: nat, gone: FileEntry) returns (file: FileEntry)
      requires HEADER_SIZE <= data.Length && i < MAX_STATES
      modifies data
      ensures file == old(Files()[i])
      ensures HeaderWritten(old(data[..]), data[..], i, ShiftedEntry(file, gone))
    {
      file := EntryAt(data[..], i);
      if file.Allocated() && file.offset > gone.offset {
        WriteEntry(i, file.(offset := (file.offset - gone.sectionLength) % 0x1_0000_0000));
      }
    }
  }

  // ---- What holds of all runs ----------------------------------------------------------------

  /** In any run that the map allows, a load answers with the bytes last stored under the
      name, provided that store succeeded and no call in between stored or deleted it. */
  lemma {:induction false} LoadsLastStored(m: map<int, Bytes>, calls: seq<Call>, answers: seq<CallResult>,
                                           m': map<int, Bytes>, i: nat)
    requires MapRun(m, calls, answers, m') && i < |calls|
    requires calls[i].StoreCall? && answers[i] == Done(Success) && GetFileNr(calls[i].name).Some?
    requires forall k :: i < k < |calls| ==> !Changes(calls[k], calls[i].name)
    ensures LoadResult(m', calls[i].name) == Ok(calls[i].bytes)
  {
    var n := |calls| - 1;
    var mid :| MapRun(m, calls[..n], answers[..n], mid) && MapStep(mid, calls[n], answers[n], m');
    if i < n {
      LoadsLastStored(m, calls[..n], answers[..n], mid, i);
      StepElsewhere(mid, calls[n], answers[n], m', calls[i].name);
    }
  }

  /** After a delete, and until the next store, the name is absent: loading says retry. */
  lemma {:induction false} DeletedIsAbsent(m: map<int, Bytes>, calls: seq<Call>, answers: seq<CallResult>,
                                           m': map<int, Bytes>, i: nat)
    requires MapRun(m, calls, answers, m') && i < |calls|
    requires calls[i].DeleteCall? && GetFileNr(calls[i].name).Some?
    requires forall k :: i < k < |calls| ==> !Changes(calls[k], calls[i].name)
    ensures LoadResult(m', calls[i].name) == Err(Retry)
  {
    var n := |calls| - 1;
    var mid :| MapRun(m, calls[..n], answers[..n], mid) && MapStep(mid, calls[n], answers[n], m');
    if i < n {
      DeletedIsAbsent(m, calls[..n], answers[..n], mid, i);
      StepElsewhere(mid, calls[n], answers[n], m', calls[i].name);
    }
  }

  /** The call stores or deletes under the name. */
  predicate Changes(c: Call, name: string) {
    (c.StoreCall? || c.DeleteCall?) && c.name == name
  }

  /** No call on another name, successful or not, changes what a name loads. */
  lemma StepElsewhere(m: map<int, Bytes>, c: Call, a: CallResult, m': map<int, Bytes>, name: string)
    requires MapStep(m, c, a, m') && !Changes(c, name)
    ensures LoadResult(m', name) == LoadResult(m, name)
  {
    NamesAreDistinct(name, c.name);
  }

  lemma NamesAreDistinct(a: string, b: string)
    ensures GetFileNr(a).Some? && GetFileNr(a) == GetFileNr(b) ==> a == b
  {
  }
}
