/**
 * The paging simulator's state as a value: the page/frame table and the
 * physical memory as sequences, with -1 as the "unmapped" and "empty"
 * sentinel. `Load` is what loading a page does to that state and
 * `Translate` what one translation step does; the class in module Pager
 * is proved to do exactly this on its arrays.
 */
module PagingModel {
  import opened Address

  /** Table entry of a page that has no frame. */
  const UNMAPPED: int := -1
  /** Slot of a frame that holds no page. */
  const EMPTY: int := -1

  datatype Option<T> = None | Some(value: T)

  /** Page/frame table indexed by page number; physical memory indexed by frame. */
  datatype Memory = Memory(table: seq<int>, frames: seq<int>)

  /** Outcome of translating one logical address. */
  datatype Translation =
    | Translated(pageNumber: int, offset: int, physicalAddress: int)
    | InvalidPageNumber(pageNumber: int)

  predicate IsFrame(f: int)
  {
    0 <= f < NUM_FRAMES
  }

  predicate IsPage(p: int)
  {
    0 <= p < NUM_PAGES
  }

  /**
   * The shape every reachable state has: the table has NUM_PAGES entries,
   * each unmapped or a frame; memory has NUM_FRAMES slots, each empty or a page.
   */
  predicate Valid(m: Memory)
  {
    && |m.table| == NUM_PAGES
    && |m.frames| == NUM_FRAMES
    && (forall p :: 0 <= p < |m.table| ==> m.table[p] == UNMAPPED || IsFrame(m.table[p]))
    && (forall f :: 0 <= f < |m.frames| ==> m.frames[f] == EMPTY || IsPage(m.frames[f]))
  }

  /** Table as created: every page unmapped. */
  function UnmappedTable(): (t: seq<int>)
    ensures |t| == NUM_PAGES && forall p :: 0 <= p < |t| ==> t[p] == UNMAPPED
  {
    seq(NUM_PAGES, _ => UNMAPPED)
  }

  /** Memory as created: every frame empty. */
  function EmptyFrames(): (s: seq<int>)
    ensures |s| == NUM_FRAMES && forall f :: 0 <= f < |s| ==> s[f] == EMPTY
  {
    seq(NUM_FRAMES, _ => EMPTY)
  }

  /** Table after the driver's fill loop: page p in frame p mod NUM_FRAMES. */
  function CircularTable(): (t: seq<int>)
    ensures |t| == NUM_PAGES
    ensures forall p :: 0 <= p < |t| ==> t[p] == p % NUM_FRAMES && IsFrame(t[p])
  {
    seq(NUM_PAGES, p => p % NUM_FRAMES)
  }

  /** The lowest empty slot at or after `from`, if there is one. */
  function FirstEmptyFrom(frames: seq<int>, from: nat): (r: Option<nat>)
    requires from <= |frames|
    ensures r.Some? ==> from <= r.value < |frames| && frames[r.value] == EMPTY
    ensures r.Some? ==> forall f :: from <= f < r.value ==> frames[f] != EMPTY
    ensures r.None? <==> forall f :: from <= f < |frames| ==> frames[f] != EMPTY
    decreases |frames| - from
  {
    if from == |frames| then None
    else if frames[from] == EMPTY then Some(from)
    else FirstEmptyFrom(frames, from + 1)
  }

  /** The lowest empty slot of memory, if there is one. */
  function FirstEmpty(frames: seq<int>): Option<nat>
  {
    FirstEmptyFrom(frames, 0)
  }

  /**
   * Loading `p` is defined when the table has an entry for it and either
   * some frame is empty or the table already names a frame for `p` (the
   * fallback reads that entry and writes the slot it names).
   */
  predicate CanLoad(m: Memory, p: int)
  {
    && |m.frames| == NUM_FRAMES
    && 0 <= p < |m.table|
    && (FirstEmpty(m.frames).Some? || IsFrame(m.table[p]))
  }

  /**
   * Loading page `p`. First fit: the lowest empty frame receives `p` and
   * the table records it. Otherwise the frame the table already holds for
   * `p` is overwritten with `p` and that same entry is written back; the
   * page that lived there keeps its (now stale) entry.
   */
  function Load(m: Memory, p: int): (r: Memory)
    requires CanLoad(m, p)
    ensures |r.table| == |m.table| && |r.frames| == |m.frames|
    ensures IsFrame(r.table[p]) && r.frames[r.table[p]] == p
  {
    match FirstEmpty(m.frames)
    case Some(f) => Memory(m.table[p := f], m.frames[f := p])
    case None =>
      var frameToReplace := m.table[p];
      Memory(m.table[p := frameToReplace], m.frames[frameToReplace := p])
  }

  /**
   * A translation step is defined unless it would index outside the table
   * (a negative page number) or take the fallback path with an unmapped
   * entry, which would index physical memory at -1.
   */
  predicate CanTranslate(m: Memory, logicalAddress: int)
    requires Valid(m)
  {
    var p := PageNumber(logicalAddress);
    p < NUM_PAGES ==> 0 <= p && (m.table[p] != UNMAPPED || FirstEmpty(m.frames).Some?)
  }

  /**
   * One translation: split the address; on a valid page, look the frame
   * up, load the page on a miss, and compute the physical address from the
   * frame the table then holds. The new state comes first.
   */
  function Translate(m: Memory, logicalAddress: Int32): (r: (Memory, Translation))
    requires Valid(m) && CanTranslate(m, logicalAddress)
    ensures Valid(r.0)
    ensures r.1.Translated? <==> PageNumber(logicalAddress) < NUM_PAGES
    ensures r.1.InvalidPageNumber? ==> r == (m, InvalidPageNumber(PageNumber(logicalAddress)))
    ensures r.1.Translated? ==>
              var p := PageNumber(logicalAddress);
              && r.1.pageNumber == p
              && r.1.offset == Offset(logicalAddress)
              && IsFrame(r.0.table[p])
              && r.1.physicalAddress == PhysicalAddress(r.0.table[p], r.1.offset)
    ensures var p := PageNumber(logicalAddress);
            0 <= p < NUM_PAGES && m.table[p] == UNMAPPED ==> r.0 == Load(m, p)
    ensures var p := PageNumber(logicalAddress);
            0 <= p < NUM_PAGES && m.table[p] != UNMAPPED ==> r.0 == m
  {
    var p := PageNumber(logicalAddress);
    var offset := Offset(logicalAddress);
    if p < NUM_PAGES then
      if m.table[p] == UNMAPPED then
        LoadPreservesValid(m, p);
        var m' := Load(m, p);
        (m', Translated(p, offset, PhysicalAddress(m'.table[p], offset)))
      else
        (m, Translated(p, offset, PhysicalAddress(m.table[p], offset)))
    else
      (m, InvalidPageNumber(p))
  }

  /** Loading keeps the shape of the state. */
  lemma LoadPreservesValid(m: Memory, p: int)
    requires Valid(m) && CanLoad(m, p)
    ensures Valid(Load(m, p))
  {
  }

  /**
   * First fit: when `f` is the lowest empty frame, loading `p` puts `p` in
   * frame `f`, records `f` for `p`, and changes no other slot or entry.
   */
  lemma LoadFirstFit(m: Memory, p: int, f: nat)
    requires CanLoad(m, p)
    requires f < |m.frames| && m.frames[f] == EMPTY
    requires forall g :: 0 <= g < f ==> m.frames[g] != EMPTY
    ensures Load(m, p).frames[f] == p && Load(m, p).table[p] == f
    ensures forall g :: 0 <= g < |m.frames| && g != f ==> Load(m, p).frames[g] == m.frames[g]
    ensures forall q :: 0 <= q < |m.table| && q != p ==> Load(m, p).table[q] == m.table[q]
  {
  }

  /**
   * Fallback: with every frame occupied, loading `p` overwrites the slot of
   * the frame the table already names for `p`; the table ends as it was.
   */
  lemma LoadFallback(m: Memory, p: int)
    requires CanLoad(m, p)
    requires forall f :: 0 <= f < |m.frames| ==> m.frames[f] != EMPTY
    ensures IsFrame(m.table[p])
    ensures Load(m, p).table == m.table
    ensures Load(m, p).frames == m.frames[m.table[p] := p]
  {
  }

  /**
   * The fallback does not unmap the page it evicts: a page `q` that shared
   * the victim frame keeps its entry, which now names a frame holding `p`.
   */
  lemma FallbackLeavesStaleEntry(m: Memory, p: int, q: int)
    requires CanLoad(m, p)
    requires forall f :: 0 <= f < |m.frames| ==> m.frames[f] != EMPTY
    requires 0 <= q < |m.table| && q != p && m.table[q] == m.table[p]
    ensures Load(m, p).table[q] == Load(m, p).table[p]
    ensures Load(m, p).frames[Load(m, p).table[q]] != q
  {
  }

  /**
   * On a miss (the page is unmapped), loading is defined exactly when some
   * frame is empty: with memory full the fallback would index slot -1.
   */
  lemma MissNeedsEmptyFrame(m: Memory, p: int)
    requires Valid(m) && 0 <= p < NUM_PAGES && m.table[p] == UNMAPPED
    ensures CanLoad(m, p) <==> exists f :: 0 <= f < |m.frames| && m.frames[f] == EMPTY
  {
  }

  /** A hit (the table names a frame) performs no writes. */
  lemma TranslateHitChangesNothing(m: Memory, logicalAddress: Int32)
    requires Valid(m) && CanTranslate(m, logicalAddress)
    requires 0 <= PageNumber(logicalAddress) < NUM_PAGES
    requires m.table[PageNumber(logicalAddress)] != UNMAPPED
    ensures Translate(m, logicalAddress).0 == m
    ensures Translate(m, logicalAddress).1.physicalAddress
         == PhysicalAddress(m.table[PageNumber(logicalAddress)], Offset(logicalAddress))
  {
  }

  /**
   * After one translation the page is mapped, so translating the same
   * address again is defined, is a hit, changes nothing and gives the same
   * physical address.
   */
  lemma TranslateTwice(m: Memory, logicalAddress: Int32)
    requires Valid(m) && CanTranslate(m, logicalAddress)
    ensures var (m1, t1) := Translate(m, logicalAddress);
            && CanTranslate(m1, logicalAddress)
            && Translate(m1, logicalAddress) == (m1, t1)
  {
  }

  /**
   * Bounds of a translated address: for an address that is not negative the
   * physical address lies in physical memory and decodes to the frame the
   * table holds and the offset; for every address it fits a C++ int.
   */
  lemma TranslateBounds(m: Memory, logicalAddress: Int32)
    requires Valid(m) && CanTranslate(m, logicalAddress)
    requires Translate(m, logicalAddress).1.Translated?
    ensures var (m1, t) := Translate(m, logicalAddress);
            -0x8000_0000 <= t.physicalAddress <= 0x7fff_ffff
    ensures var (m1, t) := Translate(m, logicalAddress);
            0 <= logicalAddress ==>
              && 0 <= t.physicalAddress < NUM_FRAMES * FRAME_SIZE
              && t.physicalAddress / FRAME_SIZE == m1.table[t.pageNumber]
              && t.physicalAddress % FRAME_SIZE == t.offset
  {
  }

  /**
   * The driver's warm start: after the fill loop every page is mapped, so
   * every translation of an address with a page number in the table is a
   * hit. Memory stays all empty and the frame is the page number modulo
   * NUM_FRAMES.
   */
  lemma PrefilledNeverFaults(logicalAddress: Int32)
    requires -PAGE_SIZE < logicalAddress
    ensures Valid(Memory(CircularTable(), EmptyFrames()))
    ensures CanTranslate(Memory(CircularTable(), EmptyFrames()), logicalAddress)
    ensures var m := Memory(CircularTable(), EmptyFrames());
            var (m1, t) := Translate(m, logicalAddress);
            && m1 == m
            && (t.Translated? ==>
                  t.physicalAddress == PhysicalAddress(t.pageNumber % NUM_FRAMES, t.offset))
  {
  }

  /**
   * The table/memory consistency a pager is meant to keep: memory is the
   * inverse of the table's mapped entries. Every mapped page is what its
   * frame holds, and every occupied frame is the one its page is mapped to.
   */
  predicate Consistent(m: Memory)
    requires Valid(m)
  {
    && (forall p :: 0 <= p < |m.table| && m.table[p] != UNMAPPED ==> m.frames[m.table[p]] == p)
    && (forall f :: 0 <= f < |m.frames| && m.frames[f] != EMPTY ==> m.table[m.frames[f]] == f)
  }

  /** Under consistency no two mapped pages share a frame. */
  lemma ConsistentIsInjective(m: Memory, p: int, q: int)
    requires Valid(m) && Consistent(m)
    requires 0 <= p < |m.table| && 0 <= q < |m.table|
    requires m.table[p] != UNMAPPED && m.table[p] == m.table[q]
    ensures p == q
  {
  }

  /** Under consistency no page is held by two frames. */
  lemma ConsistentNoPageTwice(m: Memory, f: int, g: int)
    requires Valid(m) && Consistent(m)
    requires 0 <= f < |m.frames| && 0 <= g < |m.frames|
    requires m.frames[f] != EMPTY && m.frames[f] == m.frames[g]
    ensures f == g
  {
  }

  /** The state the table and memory are created in is consistent. */
  lemma ColdStartConsistent()
    ensures Valid(Memory(UnmappedTable(), EmptyFrames()))
    ensures Consistent(Memory(UnmappedTable(), EmptyFrames()))
  {
  }

  /**
   * The driver's warm start is not consistent: page 0 is mapped to frame 0,
   * but frame 0 is empty.
   */
  lemma PrefilledNotConsistent()
    ensures Valid(Memory(CircularTable(), EmptyFrames()))
    ensures !Consistent(Memory(CircularTable(), EmptyFrames()))
  {
    var m := Memory(CircularTable(), EmptyFrames());
    assert m.table[0] == 0 && m.frames[0] == EMPTY;
  }

  /**
   * From a consistent state, a translation keeps consistency: a miss can
   * only be served by first fit (the fallback is excluded on a miss), and a
   * first-fit load of an unmapped page into an empty frame breaks no entry.
   */
  lemma TranslateKeepsConsistent(m: Memory, logicalAddress: Int32)
    requires Valid(m) && Consistent(m) && CanTranslate(m, logicalAddress)
    ensures Consistent(Translate(m, logicalAddress).0)
  {
  }

  /**
   * Cold fault: from the state as created, translating an address of logical
   * memory loads its page into frame 0 (the lowest empty frame), changes no
   * other entry or slot, and yields the offset as the physical address.
   */
  lemma ColdFault(logicalAddress: Int32)
    requires 0 <= logicalAddress < NUM_PAGES * PAGE_SIZE
    ensures Valid(Memory(UnmappedTable(), EmptyFrames()))
    ensures CanTranslate(Memory(UnmappedTable(), EmptyFrames()), logicalAddress)
    ensures var p := PageNumber(logicalAddress);
            Translate(Memory(UnmappedTable(), EmptyFrames()), logicalAddress)
              == (Memory(UnmappedTable()[p := 0], EmptyFrames()[0 := p]),
                  Translated(p, Offset(logicalAddress), Offset(logicalAddress)))
  {
  }
}
