/**
 * The simulator's mutable state: the page/frame table and physical memory
 * as two arrays updated in place, the page loader, one translation step
 * and the driver's trial loop. Each method is proved to do to the arrays
 * what module PagingModel says of the same state as a value.
 */
module Pager {
  import opened Address
  import opened PagingModel

  class PagedMemory {
    /** Frame of each page, or UNMAPPED. */
    var pageFrameTable: array<int>
    /** Page held by each frame, or EMPTY. */
    var physicalMemory: array<int>

    ghost predicate Valid()
      reads this, pageFrameTable, physicalMemory
    {
      && pageFrameTable != physicalMemory
      && PagingModel.Valid(State())
    }

    /** The arrays' contents as a value of the model. */
    function State(): Memory
      reads this, pageFrameTable, physicalMemory
    {
      Memory(pageFrameTable[..], physicalMemory[..])
    }

    /** Both arrays created with every entry -1: nothing mapped, every frame empty. */
    constructor ()
      ensures Valid() && fresh(pageFrameTable) && fresh(physicalMemory)
      ensures State() == Memory(UnmappedTable(), EmptyFrames())
    {
      pageFrameTable := new int[NUM_PAGES](_ => UNMAPPED);
      physicalMemory := new int[NUM_FRAMES](_ => EMPTY);
    }

    /** The driver's fill loop: page i is mapped to frame i mod NUM_FRAMES. */
    method FillCircular()
      requires Valid()
      modifies pageFrameTable
      ensures Valid()
      ensures State() == Memory(CircularTable(), old(physicalMemory[..]))
    {
      for i := 0 to NUM_PAGES
        invariant forall p :: 0 <= p < i ==> pageFrameTable[p] == p % NUM_FRAMES
        invariant forall p :: i <= p < NUM_PAGES ==> pageFrameTable[p] == old(pageFrameTable[p])
      {
        pageFrameTable[i] := i % NUM_FRAMES;
      }
      assert pageFrameTable[..] == CircularTable();
    }

    /**
     * Loads `pageNumber`: first fit into the lowest empty frame, or else
     * overwrite the frame the table already holds for it.
     */
    method LoadPage(pageNumber: int)
      requires Valid() && CanLoad(State(), pageNumber)
      modifies pageFrameTable, physicalMemory
      ensures Valid()
      ensures State() == Load(old(State()), pageNumber)
    {
      ghost var m := State();
      LoadPreservesValid(m, pageNumber);
      for i := 0 to NUM_FRAMES
        invariant State() == m
        invariant FirstEmptyFrom(m.frames, i) == FirstEmpty(m.frames)
      {
        if physicalMemory[i] == EMPTY {
          physicalMemory[i] := pageNumber;
          pageFrameTable[pageNumber] := i;
          return;
        }
      }
      var frameToReplace := pageFrameTable[pageNumber];
      physicalMemory[frameToReplace] := pageNumber;
      pageFrameTable[pageNumber] := frameToReplace;
    }

    /**
     * One translation: split the address, look the page up, load it on a
     * miss, and combine the frame with the offset.
     */
    method TranslateAddress(logicalAddress: Int32) returns (t: Translation)
      requires Valid() && CanTranslate(State(), logicalAddress)
      modifies pageFrameTable, physicalMemory
      ensures Valid()
      ensures (State(), t) == Translate(old(State()), logicalAddress)
    {
      var pageNumber := PageNumber(logicalAddress);
      var offset := Offset(logicalAddress);
      if pageNumber < NUM_PAGES {
        var frameNumber := pageFrameTable[pageNumber];
        if frameNumber == UNMAPPED {
          LoadPage(pageNumber);
          frameNumber := pageFrameTable[pageNumber];
        }
        t := Translated(pageNumber, offset, PhysicalAddress(frameNumber, offset));
      } else {
        t := InvalidPageNumber(pageNumber);
      }
    }
  }

  /**
   * The driver: create the table and memory, fill the table, then translate
   * one generated address per random draw. Every trial is a hit on page
   * a / PAGE_SIZE, whose frame is that page modulo NUM_FRAMES.
   */
  method RunTrials(draws: seq<nat>) returns (results: seq<Translation>)
    ensures |results| == |draws|
    ensures forall k :: 0 <= k < |draws| ==>
              var a := GenerateLogicalAddress(draws[k]);
              results[k] == Translated(a / PAGE_SIZE, a % PAGE_SIZE,
                                       (a / PAGE_SIZE) % NUM_FRAMES * FRAME_SIZE + a % PAGE_SIZE)
  {
    var pm := new PagedMemory();
    pm.FillCircular();
    results := [];
    for k := 0 to |draws|
      invariant pm.Valid() && fresh(pm.pageFrameTable) && fresh(pm.physicalMemory)
      invariant pm.State() == Memory(CircularTable(), EmptyFrames())
      invariant |results| == k
      invariant forall j :: 0 <= j < k ==>
                  var a := GenerateLogicalAddress(draws[j]);
                  results[j] == Translated(a / PAGE_SIZE, a % PAGE_SIZE,
                                           (a / PAGE_SIZE) % NUM_FRAMES * FRAME_SIZE + a % PAGE_SIZE)
    {
      var logicalAddress := GenerateLogicalAddress(draws[k]);
      GeneratedAddressValid(draws[k]);
      PrefilledNeverFaults(logicalAddress);
      var t := pm.TranslateAddress(logicalAddress);
      results := results + [t];
    }
  }
}
