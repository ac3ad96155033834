/** The file table of the linear store (src/swtpm/swtpm_nvstore_linear.h) and the
    arithmetic on it: which sections are allocated, and how they tile the buffer. */
module LinearLayout {
  import opened Bytes
  import opened PowerOfTwo

  const MAX_STATES := 15
  const HEADER_SIZE := 192

  datatype FileEntry = FileEntry(offset: Word32, dataLength: Word32, sectionLength: Word32)
  {
    predicate Allocated() { offset != 0 }

    function End(): nat { offset as int + sectionLength as int }
  }

  const FREE := FileEntry(0, 0, 0)

  type Table = s: seq<FileEntry> | |s| == MAX_STATES witness seq(MAX_STATES, _ => FREE)

  ghost predicate SectionOk(e: FileEntry) {
    && HEADER_SIZE <= e.offset
    && e.dataLength <= e.sectionLength
    && exists k: nat :: e.sectionLength == Pow2(k)
  }

  ghost predicate Apart(a: FileEntry, b: FileEntry) {
    a.End() <= b.offset || b.End() <= a.offset
  }

  /** The section starts at the header's end or right where another one ends. */
  ghost predicate Anchored(files: Table, x: nat) {
    x == HEADER_SIZE || exists j :: 0 <= j < MAX_STATES && files[j].Allocated() && files[j].End() == x
  }

  /** The allocated sections tile the buffer from the header on, without hole or
      overlap, and end by `length`. */
  ghost predicate Tiled(files: Table, length: nat) {
    && (forall i {:trigger SectionWithin(files[i], length)} ::
          0 <= i < MAX_STATES && files[i].Allocated() ==> SectionWithin(files[i], length))
    && (forall i, j {:trigger Apart(files[i], files[j])} ::
          0 <= i < j < MAX_STATES && files[i].Allocated() && files[j].Allocated() ==> Apart(files[i], files[j]))
    && (forall i {:trigger Anchored(files, files[i].offset)} ::
          0 <= i < MAX_STATES && files[i].Allocated() ==> Anchored(files, files[i].offset))
  }

  ghost predicate SectionWithin(e: FileEntry, length: nat) {
    SectionOk(e) && e.End() <= length
  }

  /** `x` is the end of the last section, or of the header if there is none. */
  ghost predicate IsEnd(files: Table, x: nat) {
    && x >= HEADER_SIZE
    && (forall i :: 0 <= i < MAX_STATES && files[i].Allocated() ==> files[i].End() <= x)
    && Anchored(files, x)
  }

  // ---- Allocation ---------------------------------------------------------------

  lemma AllocKeepsTiling(files: Table, nr: nat, e: FileEntry, length: nat, length': nat)
    requires nr < MAX_STATES && Tiled(files, length) && !files[nr].Allocated()
    requires IsEnd(files, e.offset) && SectionWithin(e, length')
    ensures Tiled(files[nr := e], length')
  {
    var files' := files[nr := e];
    forall i | 0 <= i < MAX_STATES && files'[i].Allocated()
      ensures SectionWithin(files'[i], length')
    {
      assert i != nr ==> SectionWithin(files[i], length);
    }
    forall i, j | 0 <= i < j < MAX_STATES && files'[i].Allocated() && files'[j].Allocated()
      ensures Apart(files'[i], files'[j])
    {
      assert i != nr && j != nr ==> Apart(files[i], files[j]);
    }
    forall i | 0 <= i < MAX_STATES && files'[i].Allocated()
      ensures Anchored(files', files'[i].offset)
    {
      assert i != nr ==> Anchored(files, files[i].offset);
      AnchorKept(files, nr, e, files'[i].offset);
    }
  }

  lemma AnchorKept(files: Table, nr: nat, e: FileEntry, x: nat)
    requires nr < MAX_STATES && !files[nr].Allocated()
    requires Anchored(files, x)
    ensures Anchored(files[nr := e], x)
  {
    if x != HEADER_SIZE {
      var j :| 0 <= j < MAX_STATES && files[j].Allocated() && files[j].End() == x;
      assert files[nr := e][j] == files[j];
    }
  }

  // ---- Removal ------------------------------------------------------------------

  /** The table after removing entry nr: it is freed and all later sections move down. */
  function ShiftedEntry(e: FileEntry, gone: FileEntry): (r: FileEntry) {
    if e.Allocated() && e.offset > gone.offset
    then e.(offset := (e.offset - gone.sectionLength) % 0x1_0000_0000) else e
  }

  function Removed(files: Table, nr: nat): (r: Table)
    requires nr < MAX_STATES
    ensures forall i :: 0 <= i < MAX_STATES ==>
      r[i] == if i == nr then FREE else ShiftedEntry(files[i], files[nr])
  {
    seq(MAX_STATES, i requires 0 <= i < MAX_STATES => if i == nr then FREE else ShiftedEntry(files[i], files[nr]))
  }

  /** Later sections start at or after the end of the removed one, so what is
      subtracted never reaches into the header. */
  lemma LaterSections(files: Table, nr: nat, i: nat, length: nat)
    requires nr < MAX_STATES && i < MAX_STATES && i != nr && Tiled(files, length)
    requires files[nr].Allocated() && files[i].Allocated()
    ensures SectionWithin(files[i], length) && SectionWithin(files[nr], length)
    ensures Apart(files[i], files[nr])
    ensures files[i].offset > files[nr].offset ==> files[i].offset >= files[nr].End()
    ensures files[i].offset <= files[nr].offset ==> files[i].End() <= files[nr].offset
    ensures Removed(files, nr)[i].End() ==
            if files[i].offset > files[nr].offset then files[i].End() - files[nr].sectionLength else files[i].End()
  {
    ApartOrSame(files, length, i, nr);
    ShiftedDown(files[i], files[nr]);
  }

  lemma ShiftedDown(e: FileEntry, gone: FileEntry)
    requires SectionOk(e) && SectionOk(gone) && Apart(e, gone)
    ensures e.offset > gone.offset ==> e.offset >= gone.End()
    ensures e.offset <= gone.offset ==> e.End() <= gone.offset
    ensures ShiftedEntry(e, gone).End() ==
            if e.offset > gone.offset then e.End() - gone.sectionLength else e.End()
    ensures ShiftedEntry(e, gone).offset ==
            if e.offset > gone.offset then e.offset - gone.sectionLength else e.offset
  {
    if e.offset > gone.offset {
      assert 0 <= e.offset - gone.sectionLength < 0x1_0000_0000;
    }
  }

  lemma RemoveKeepsTiling(files: Table, nr: nat, length: nat, length': nat)
    requires nr < MAX_STATES && Tiled(files, length) && files[nr].Allocated()
    requires length - files[nr].sectionLength <= length'
    ensures Tiled(Removed(files, nr), length')
  {
    var files' := Removed(files, nr);
    forall i | 0 <= i < MAX_STATES && files'[i].Allocated()
      ensures SectionWithin(files'[i], length')
    {
      LaterSections(files, nr, i, length);
    }
    forall i, j | 0 <= i < j < MAX_STATES && files'[i].Allocated() && files'[j].Allocated()
      ensures Apart(files'[i], files'[j])
    {
      LaterSections(files, nr, i, length);
      LaterSections(files, nr, j, length);
      assert Apart(files[i], files[j]);
    }
    forall i | 0 <= i < MAX_STATES && files'[i].Allocated()
      ensures Anchored(files', files'[i].offset)
    {
      AnchorShifted(files, nr, i, length);
    }
  }

  lemma AnchorShifted(files: Table, nr: nat, i: nat, length: nat)
    requires nr < MAX_STATES && i < MAX_STATES && i != nr && Tiled(files, length)
    requires files[nr].Allocated() && files[i].Allocated()
    ensures Anchored(Removed(files, nr), Removed(files, nr)[i].offset)
  {
    var files' := Removed(files, nr);
    LaterSections(files, nr, i, length);
    assert Anchored(files, files[i].offset);
    if files[i].offset != HEADER_SIZE {
      var j :| 0 <= j < MAX_STATES && files[j].Allocated() && files[j].End() == files[i].offset;
      if j != nr {
        LaterSections(files, nr, j, length);
        assert files'[j].End() == files'[i].offset;
      } else if files[nr].offset != HEADER_SIZE {
        assert Anchored(files, files[nr].offset);
        var h :| 0 <= h < MAX_STATES && files[h].Allocated() && files[h].End() == files[nr].offset;
        LaterSections(files, nr, h, length);
        assert files'[h].End() == files'[i].offset;
      }
    }
  }

  /** The new end is the old one less the removed section. */
  lemma RemoveMovesEnd(files: Table, nr: nat, length: nat, end: nat)
    requires nr < MAX_STATES && Tiled(files, length) && files[nr].Allocated() && IsEnd(files, end)
    ensures end >= files[nr].End() && IsEnd(Removed(files, nr), end - files[nr].sectionLength)
  {
    var files' := Removed(files, nr);
    forall i | 0 <= i < MAX_STATES && files'[i].Allocated()
      ensures files'[i].End() <= end - files[nr].sectionLength
    {
      LaterSections(files, nr, i, length);
    }
    EndAnchored(files, nr, length, end);
  }

  lemma EndAnchored(files: Table, nr: nat, length: nat, end: nat)
    requires nr < MAX_STATES && Tiled(files, length) && files[nr].Allocated() && IsEnd(files, end)
    ensures end - files[nr].sectionLength >= HEADER_SIZE
    ensures Anchored(Removed(files, nr), end - files[nr].sectionLength)
  {
    var files' := Removed(files, nr);
    var end' := end - files[nr].sectionLength;
    assert SectionWithin(files[nr], length) && files[nr].End() <= end;
    var j :| 0 <= j < MAX_STATES && files[j].Allocated() && files[j].End() == end;
    if j != nr {
      LaterSections(files, nr, j, length);
      assert files'[j].End() == end';
    } else if files[nr].offset != HEADER_SIZE {
      assert Anchored(files, files[nr].offset);
      var h :| 0 <= h < MAX_STATES && files[h].Allocated() && files[h].End() == files[nr].offset;
      LaterSections(files, nr, h, length);
      assert files'[h].End() == end';
    }
  }

  // ---- Conservation -------------------------------------------------------------------

  function SumOfSections(files: Table, n: nat): nat
    requires n <= MAX_STATES
  {
    if n == 0 then 0
    else SumOfSections(files, n - 1) + if files[n - 1].Allocated() then files[n - 1].sectionLength else 0
  }

  lemma SumAfterRemoval(files: Table, nr: nat, length: nat)
    requires nr < MAX_STATES && Tiled(files, length) && files[nr].Allocated()
    ensures SumOfSections(Removed(files, nr), |files|) == SumOfSections(files, |files|) - files[nr].sectionLength
  {
    var files' := Removed(files, nr);
    forall i | 0 <= i < MAX_STATES && i != nr
      ensures SameSection(files[i], files'[i])
    {
      if files[i].Allocated() {
        LaterSections(files, nr, i, length);
      }
    }
    SumWithout(files, files', nr, |files|);
  }

  ghost predicate SameSection(e: FileEntry, e': FileEntry) {
    e.sectionLength == e'.sectionLength && (e.Allocated() <==> e'.Allocated())
  }

  lemma {:induction false} SumWithout(files: Table, files': Table, nr: nat, n: nat)
    requires nr < MAX_STATES && n <= MAX_STATES && files[nr].Allocated() && !files'[nr].Allocated()
    requires forall i :: 0 <= i < MAX_STATES && i != nr ==> SameSection(files[i], files'[i])
    ensures SumOfSections(files', n) == SumOfSections(files, n) - if nr < n then files[nr].sectionLength else 0
  {
    if n > 0 {
      SumWithout(files, files', nr, n - 1);
      assert n - 1 != nr ==> SameSection(files[n - 1], files'[n - 1]);
    }
  }

  /** No space leaks: the store ends exactly at the header plus the sum of its
      sections, whatever the history of allocations and removals. */
  lemma {:induction false} EndIsSumOfSections(files: Table, length: nat, end: nat)
    requires Tiled(files, length) && IsEnd(files, end)
    ensures end == HEADER_SIZE + SumOfSections(files, |files|)
    decreases SumOfSections(files, |files|)
  {
    if end == HEADER_SIZE {
      NothingAllocated(files, |files|, length);
    } else {
      var nr :| 0 <= nr < MAX_STATES && files[nr].Allocated() && files[nr].End() == end;
      assert SectionWithin(files[nr], length);
      RemoveKeepsTiling(files, nr, length, length - files[nr].sectionLength);
      RemoveMovesEnd(files, nr, length, end);
      SumAfterRemoval(files, nr, length);
      EndIsSumOfSections(Removed(files, nr), length - files[nr].sectionLength, end - files[nr].sectionLength);
    }
  }

  lemma {:induction false} NothingAllocated(files: Table, n: nat, length: nat)
    requires n <= MAX_STATES && Tiled(files, length) && IsEnd(files, HEADER_SIZE)
    ensures SumOfSections(files, n) == 0
  {
    if n > 0 {
      NothingAllocated(files, n - 1, length);
      assert SectionWithin(files[n - 1], length) || !files[n - 1].Allocated();
    }
  }

  /** All sections are at most `bound` bytes long. */
  ghost predicate SectionsUpTo(files: Table, bound: nat) {
    forall i :: 0 <= i < MAX_STATES && files[i].Allocated() ==> files[i].sectionLength <= bound
  }

  lemma {:induction false} SumBounded(files: Table, bound: nat, n: nat)
    requires n <= MAX_STATES && SectionsUpTo(files, bound)
    ensures SumOfSections(files, n) <= n * bound
  {
    if n > 0 {
      SumBounded(files, bound, n - 1);
      assert n * bound == (n - 1) * bound + bound;
    }
  }

  /** What the loop of RemoveFile finds out about the sections behind the removed one:
      where the first one starts and where the last one ends. */
  ghost predicate LaterSpan(files: Table, nr: nat, n: nat, next: nat, stateEnd: nat)
    requires nr < MAX_STATES && n <= MAX_STATES
  {
    && (forall i :: 0 <= i < n && Later(files, nr, i) ==> next <= files[i].offset && files[i].End() <= stateEnd)
    && (|| (next == 0xffff_ffff && stateEnd == 0)
        || (LaterStart(files, nr, n, next) && LaterEnd(files, nr, n, stateEnd)))
  }

  ghost predicate LaterStart(files: Table, nr: nat, n: nat, x: nat)
    requires nr < MAX_STATES && n <= MAX_STATES
  {
    exists i :: 0 <= i < n && Later(files, nr, i) && files[i].offset == x
  }

  ghost predicate LaterEnd(files: Table, nr: nat, n: nat, x: nat)
    requires nr < MAX_STATES && n <= MAX_STATES
  {
    exists i :: 0 <= i < n && Later(files, nr, i) && files[i].End() == x
  }

  predicate Later(files: Table, nr: nat, i: int)
    requires nr < MAX_STATES
  {
    0 <= i < MAX_STATES && i != nr && files[i].Allocated() && files[i].offset > files[nr].offset
  }

  /** If there are later sections they form one block, from the end of the removed
      section to the end of the store. */
  lemma LaterBlock(files: Table, nr: nat, length: nat, end: nat, next: nat, stateEnd: nat)
    requires nr < MAX_STATES && Tiled(files, length) && length < 0x1_0000_0000
    requires files[nr].Allocated() && IsEnd(files, end) && LaterSpan(files, nr, MAX_STATES, next, stateEnd)
    ensures HEADER_SIZE <= files[nr].offset && files[nr].End() <= end
    ensures next == 0xffff_ffff ==> end == files[nr].End()
    ensures next != 0xffff_ffff ==> next == files[nr].End() && stateEnd == end
  {
    assert SectionWithin(files[nr], length);
    var j :| 0 <= j < MAX_STATES && files[j].Allocated() && files[j].End() == end;
    assert SectionWithin(files[j], length);
    if next == 0xffff_ffff {
      if j != nr {
        LaterSections(files, nr, j, length);
      }
    } else {
      var i :| 0 <= i < MAX_STATES && Later(files, nr, i) && files[i].offset == next;
      NextSection(files, nr, next, length);
      LaterSections(files, nr, i, length);
      if j != nr {
        LaterSections(files, nr, j, length);
      }
      assert Later(files, nr, j);
    }
  }

  /** The section right after the removed one starts where that one ended. */
  lemma NextSection(files: Table, nr: nat, next: nat, length: nat)
    requires nr < MAX_STATES && Tiled(files, length) && files[nr].Allocated()
    requires exists i :: 0 <= i < MAX_STATES && files[i].Allocated() && files[i].offset == next > files[nr].offset
    requires forall i :: 0 <= i < MAX_STATES && files[i].Allocated() && files[i].offset > files[nr].offset
                     ==> next <= files[i].offset
    ensures next == files[nr].End()
  {
    var i :| 0 <= i < MAX_STATES && files[i].Allocated() && files[i].offset == next > files[nr].offset;
    assert Anchored(files, files[i].offset) && SectionWithin(files[nr], length);
    var j :| 0 <= j < MAX_STATES && files[j].Allocated() && files[j].End() == next;
    if j != nr {
      assert SectionWithin(files[j], length);
      LaterSections(files, nr, j, length);
    }
  }

  // ---- Contents -------------------------------------------------------------------

  predicate Present(e: FileEntry, d: Bytes) {
    e.Allocated() && e.offset as int + e.dataLength as int <= |d|
  }

  function DataOf(e: FileEntry, d: Bytes): Bytes
    requires Present(e, d)
  {
    d[e.offset..e.offset as int + e.dataLength as int]
  }

  /** The files a table and a buffer stand for, by file number. */
  ghost function ContentsOf(files: Table, d: Bytes): map<int, Bytes> {
    map i | 0 <= i < MAX_STATES && Present(files[i], d) :: DataOf(files[i], d)
  }

  lemma TiledArePresent(files: Table, length: nat, d: Bytes, i: nat)
    requires Tiled(files, length) && length <= |d| && i < MAX_STATES
    ensures files[i].Allocated() <==> Present(files[i], d)
  {
    assert files[i].Allocated() ==> SectionWithin(files[i], length);
  }

  /** What compaction does to the buffer: bytes behind the removed section move down
      by its length, bytes before it stay. */
  ghost predicate Compacted(gone: FileEntry, d: Bytes, d': Bytes, end: nat) {
    && HEADER_SIZE <= gone.offset && gone.End() <= end <= |d| == |d'|
    && (forall x :: HEADER_SIZE <= x < gone.offset ==> d'[x] == d[x])
    && (forall x :: gone.offset <= x < end - gone.sectionLength ==> d'[x] == d[x + gone.sectionLength])
  }

  /** Compaction keeps every other file, at its shifted offset. */
  lemma RemoveKeepsContents(files: Table, nr: nat, length: nat, d: Bytes, d': Bytes, end: nat)
    requires nr < MAX_STATES && Tiled(files, length) && files[nr].Allocated() && IsEnd(files, end)
    requires Compacted(files[nr], d, d', end)
    ensures ContentsOf(Removed(files, nr), d') == ContentsOf(files, d) - {nr}
  {
    var files' := Removed(files, nr);
    forall i | 0 <= i < MAX_STATES && i != nr
      ensures SameData(files[i], d, files'[i], d')
    {
      FileMoved(files, nr, i, length, d, d', end);
    }
    SameContents(files, d, files', d', nr);
  }

  ghost predicate SameData(e: FileEntry, d: Bytes, e': FileEntry, d': Bytes) {
    && (Present(e, d) <==> Present(e', d'))
    && (Present(e, d) ==> DataOf(e, d) == DataOf(e', d'))
  }

  lemma SameContents(files: Table, d: Bytes, files': Table, d': Bytes, nr: int)
    requires forall i :: 0 <= i < MAX_STATES && i != nr ==> SameData(files[i], d, files'[i], d')
    ensures ContentsOf(files', d') - {nr} == ContentsOf(files, d) - {nr}
    ensures 0 <= nr < MAX_STATES && Present(files'[nr], d') ==>
      ContentsOf(files', d') == ContentsOf(files, d)[nr := DataOf(files'[nr], d')]
    ensures 0 <= nr < MAX_STATES && !Present(files'[nr], d') ==> ContentsOf(files', d') == ContentsOf(files, d) - {nr}
    ensures !(0 <= nr < MAX_STATES) ==> ContentsOf(files', d') == ContentsOf(files, d)
  {
  }

  lemma FileMoved(files: Table, nr: nat, i: nat, length: nat, d: Bytes, d': Bytes, end: nat)
    requires nr < MAX_STATES && Tiled(files, length) && files[nr].Allocated() && IsEnd(files, end)
    requires i < MAX_STATES && i != nr
    requires Compacted(files[nr], d, d', end)
    ensures SameData(files[i], d, Removed(files, nr)[i], d')
  {
    if files[i].Allocated() {
      LaterSections(files, nr, i, length);
      DataMoved(files[i], files[nr], d, d', end);
    }
  }

  lemma DataMoved(e: FileEntry, gone: FileEntry, d: Bytes, d': Bytes, end: nat)
    requires SectionOk(e) && SectionOk(gone) && Apart(e, gone) && e.End() <= end
    requires Compacted(gone, d, d', end)
    ensures SameData(e, d, ShiftedEntry(e, gone), d')
  {
    ShiftedDown(e, gone);
    SliceMoved(gone, d, d', end, e.offset, ShiftedEntry(e, gone).offset, e.dataLength);
  }

  lemma SliceMoved(gone: FileEntry, d: Bytes, d': Bytes, end: nat, a: nat, a': nat, n: nat)
    requires Compacted(gone, d, d', end) && a + n <= end && HEADER_SIZE <= a
    requires if a > gone.offset then a >= gone.End() && a' == a - gone.sectionLength
             else a + n <= gone.offset && a' == a
    ensures a' + n <= end && d'[a'..a' + n] == d[a..a + n]
  {
  }

  ghost predicate InSection(files: Table, i: int, x: int) {
    0 <= i < MAX_STATES && files[i].Allocated() && files[i].offset <= x < files[i].End()
  }

  /** Tiling in terms of bytes: between header and end every byte lies in exactly one
      section. */
  lemma EveryByteInOneSection(files: Table, length: nat, end: nat, x: nat)
    requires Tiled(files, length) && IsEnd(files, end) && HEADER_SIZE <= x < end
    ensures exists i :: InSection(files, i, x) && forall j :: InSection(files, j, x) ==> i == j
  {
    var i := SectionOf(files, length, end, x);
    forall j | InSection(files, j, x)
      ensures i == j
    {
      ApartOrSame(files, length, i, j);
    }
  }

  lemma ApartOrSame(files: Table, length: nat, i: nat, j: nat)
    requires Tiled(files, length) && i < MAX_STATES && j < MAX_STATES
    requires files[i].Allocated() && files[j].Allocated()
    ensures SectionWithin(files[i], length) && SectionWithin(files[j], length)
    ensures i != j ==> Apart(files[i], files[j])
  {
    assert i < j ==> Apart(files[i], files[j]);
    assert j < i ==> Apart(files[j], files[i]);
  }

  lemma {:induction false} SectionOf(files: Table, length: nat, end: nat, x: nat) returns (i: int)
    requires Tiled(files, length) && Anchored(files, end) && HEADER_SIZE <= x < end
    ensures InSection(files, i, x)
    decreases end
  {
    i :| 0 <= i < MAX_STATES && files[i].Allocated() && files[i].End() == end;
    assert SectionWithin(files[i], length) && Anchored(files, files[i].offset);
    if x < files[i].offset {
      i := SectionOf(files, length, files[i].offset, x);
    }
  }
}
