/**
 The copying loop of src/microcode/gcloop.c, over memory that it updates in place.
 */
module GcLoop {
  import opened Objects
  import opened HeapGraph
  import opened GcState
  import opened GcLists
  import opened GcSteps
  import opened GcScan
  import opened GcQueue
  import opened GcRoom
  import opened GcMoves
  import opened GcWalk
  import opened GcResult
  import opened GcRun
  import opened GcTheorems

  class Collector {
    const heap: array<Word>             // oldspace
    const tospace: array<Word>
    const ephemeronArray: array<Word>
    const fromspaceStart: nat
    const fromspaceEnd: nat
    const newspaceStart: nat
    var tospaceNext: nat                // index of the next free word
    var newspaceNext: nat               // its newspace address
    var weakChain: nat
    var ephemeronList: Word
    var ephemeronQueue: Word
    var scanningEphemerons: bool
    ghost var setup: Setup
    ghost var book: Book

    /** A collector for a heap, with an empty tospace and an empty ephemeron table. */
    constructor (memory: seq<Word>, fromStart: nat, fromEnd: nat, newStart: nat, space: nat, buckets: nat)
      requires buckets > 0
      ensures fresh(heap) && fresh(tospace) && fresh(ephemeronArray)
      ensures heap[..] == memory && fromspaceStart == fromStart && fromspaceEnd == fromEnd && newspaceStart == newStart
      ensures tospace.Length == space && ephemeronArray.Length == buckets && Unopened()
    {
      heap := new Word[|memory|](i requires 0 <= i < |memory| => memory[i]);
      tospace := new Word[space](_ => SHARP_F);
      ephemeronArray := new Word[buckets](_ => SHARP_F);
      fromspaceStart, fromspaceEnd, newspaceStart := fromStart, fromEnd, newStart;
      tospaceNext, newspaceNext, weakChain := 0, newStart, 0;
      ephemeronList, ephemeronQueue, scanningEphemerons := SHARP_F, SHARP_F, false;
    }

    ghost predicate Shape()
      reads this
    {
      && heap != tospace && heap != ephemeronArray && tospace != ephemeronArray
      && tospaceNext <= tospace.Length
      && newspaceNext == newspaceStart + tospaceNext
      && setup.g.lo == fromspaceStart && setup.g.hi == fromspaceEnd && setup.newStart == newspaceStart
      && setup.g.lo <= setup.g.hi
      && tospace.Length >= |setup.seeds| + (setup.g.hi - setup.g.lo)
    }

    ghost function Mem(): Memory
      requires Shape()
      reads this, heap, tospace, ephemeronArray
    {
      Memory(heap[..], tospace[..tospaceNext], ephemeronArray[..], weakChain, ephemeronList, ephemeronQueue)
    }

    ghost predicate Valid()
      reads this, heap, tospace, ephemeronArray
    {
      Shape() && Inv(setup, Mem(), book)
    }

    /** No two live ephemerons share a live key; and how the waiting ephemerons stand to the set of copied objects. */
    ghost predicate Phase(keys: set<nat>)
      reads this
    {
      DistinctKeys(setup.g, setup.roots) && if scanningEphemerons then KeysOk(setup, book, keys) else AllWaiting(book)
    }

    /** Every copied pair has its tail right behind it, or the tail was copied before. */
    ghost predicate ListsKept()
      reads this
    {
      TailsNear(setup.g, book.fwd, {})
    }

    /**
     Walks the bucket of a key, as GcWalk has it turn by turn. Bucket and queue must not both hold an ephemeron of
     the key: otherwise the walk never ends.
     */
    method QueueEphemeronsForKey(addr: nat)
      requires Valid() && WalkStops(setup, book, addr % ephemeronArray.Length, addr)
      modifies this`ephemeronQueue, this`book, tospace, ephemeronArray
      ensures Valid() && old(addr % ephemeronArray.Length < |book.buckets|)
      ensures book == Queueing(setup, old(book), addr % ephemeronArray.Length, addr)
      ensures exists n: nat :: Over(newspaceStart, addr, Begin(old(Mem()), addr), n)
                && Mem() == WalkAfter(newspaceStart, addr, Begin(old(Mem()), addr), n).m
    {
      hide Inv, WalkStops, Queueing, WalkAfter;
      ghost var m0, start, n: nat := Mem(), newspaceStart, 0;
      TableSize(setup, m0, book);
      ghost var end := WalkResult(setup, m0, book, addr);
      ghost var w0 := Begin(m0, addr);
      AfterNone(start, addr, w0);
      var inTable, loc: nat := true, addr % ephemeronArray.Length;
      var entry := ephemeronArray[loc];
      while entry.tag == Ephemeron
        invariant Shape() && book == old(book) && n <= end
        invariant WalkAfter(start, addr, w0, n) == Walk(Mem(), inTable, loc)
        invariant entry == Entry(Walk(Mem(), inTable, loc))
        decreases end - n
      {
        WalkInside(setup, m0, book, addr, n);
        AfterOneMore(start, addr, w0, n);
        var entryIndex := entry.datum - newspaceStart;
        var nextLoc := entryIndex + EPHEMERON_NEXT;
        var keyAddr := WeakReferentAddress(tospace[entryIndex + EPHEMERON_KEY]);
        ghost var w := Walk(Mem(), inTable, loc);
        if addr == keyAddr {
          if inTable {
            ephemeronArray[loc] := tospace[nextLoc];
          } else {
            tospace[loc] := tospace[nextLoc];
          }
          tospace[nextLoc] := ephemeronQueue;
          ephemeronQueue := entry;
          assert Mem() == Requeue(w, nextLoc);
        }
        inTable, loc := false, nextLoc;
        entry := tospace[loc];
        n := n + 1;
      }
      OverSame(start, addr, w0, n, end);
      book := Queueing(setup, book, addr % ephemeronArray.Length, addr);
    }

    method PrecheckFrom(from: nat) returns (addr: nat)
      requires Valid() && Phase(book.fwd.Keys)
      requires from != 0
      requires fromspaceStart <= from < fromspaceEnd ==> from in setup.g.blocks && Live(setup.g, setup.roots, from)
      modifies this`ephemeronQueue, this`book, tospace, ephemeronArray
      ensures Valid()
      ensures addr == 0 <==> fromspaceStart <= from < fromspaceEnd && from !in book.fwd
      ensures addr != 0 ==>
                && book == old(book) && Mem() == old(Mem())
                && addr == if fromspaceStart <= from < fromspaceEnd then newspaceStart + book.fwd[from] else from
      ensures addr == 0 ==>
                && Progress(old(book), book) && book.fwd == old(book).fwd
                && Phase(book.fwd.Keys + {from})
    {
      hide Placed, CellsOk, ScanPlace, AllLive, ChainOk, ListOk, TableOk, DistinctKeys;
      if !(fromspaceStart <= from < fromspaceEnd) {
        return from;
      }
      assert BlockOk(setup.g, from);
      if heap[from].tag == BrokenHeart {
        assert from in book.fwd;
        return heap[from].datum;
      }
      assert from !in book.fwd;
      ghost var b := book;
      if scanningEphemerons {
        TableSize(setup, Mem(), book);
        DistinctStops(setup, Mem(), book, from);
        QueueEphemeronsForKey(from);
        QueuedPhase(setup, b, book, b.fwd.Keys, from);
        QueuedProgressInv(setup, Mem(), b, book, from);
      }
      addr := 0;
    }

    /** Copies n words to tospace and leaves a broken heart behind. */
    method TransportWords(from: nat, n: nat) returns (newAddress: nat)
      requires Shape() && 1 <= n && from + n <= heap.Length && tospaceNext + n <= tospace.Length
      modifies this`tospaceNext, this`newspaceNext, tospace, heap
      ensures Shape()
      ensures newAddress == newspaceStart + old(tospaceNext)
      ensures tospace[..tospaceNext] == old(tospace[..tospaceNext]) + old(heap[from..from + n])
      ensures heap[..] == old(heap[..])[from := Word(BrokenHeart, newAddress)]
    {
      var scan := from;
      newAddress := newspaceNext;
      while scan < from + n
        invariant from <= scan <= from + n
        invariant tospaceNext == old(tospaceNext) + (scan - from) && newspaceNext == newspaceStart + tospaceNext
        invariant heap[..] == old(heap[..])
        invariant tospace[..tospaceNext] == old(tospace[..tospaceNext]) + old(heap[..])[from..scan]
      {
        tospace[tospaceNext] := heap[scan];
        tospaceNext, newspaceNext, scan := tospaceNext + 1, newspaceNext + 1, scan + 1;
      }
      assert old(heap[..])[from..scan] == old(heap[from..from + n]);
      heap[from] := Word(BrokenHeart, newAddress);
    }

    /** Copies an object that needs no further treatment. */
    method TransportObject(from: nat, n: nat) returns (newAddress: nat)
      requires Valid() && Phase(book.fwd.Keys + {from})
      requires from in setup.g.blocks && from !in book.fwd && n == setup.g.blocks[from].size
      requires PlainCopy(setup, book.fwd[from := |book.own|], from) && Live(setup.g, setup.roots, from)
      modifies this`tospaceNext, this`newspaceNext, this`book, tospace, heap
      ensures Valid() && Phase(book.fwd.Keys)
      ensures book == Extend(setup, old(book), from) && from in book.fwd && newAddress == newspaceStart + book.fwd[from]
      ensures tospaceNext == old(tospaceNext) + n && book.scan <= book.fwd[from] && book.fwd[from] + n == tospaceNext
      ensures OutsideSame(setup, old(heap[..]), heap[..])
    {
      hide SetupOk, Placed, CellsOk, ScanPlace, AllLive, HeapOk, ChainOk, ListOk, TableOk, Live;
      ghost var m := Mem();
      TransportReady(setup, m, book, from);
      newAddress := TransportWords(from, n);
      assert m.heap[from..from + n] == old(heap[from..from + n]);
      assert Mem() == PlainMemory(setup, m, from);
      PlainDone(setup, m, book, from);
      book := Extend(setup, book, from);
    }

    /** Whether the cdr is a list whose first pair is not copied yet; if so, that pair is about to be. */
    method MoreToCopy(cdr: Word) returns (more: bool)
      requires Valid() && Phase(book.fwd.Keys) && Handled(setup, cdr)
      modifies this`ephemeronQueue, this`book, tospace, ephemeronArray
      ensures Valid() && Progress(old(book), book) && book.fwd == old(book).fwd
      ensures if more
              then cdr.tag == TC_LIST && Points(setup.g, cdr) && cdr.datum !in book.fwd && Phase(book.fwd.Keys + {cdr.datum})
              else Phase(book.fwd.Keys) && (cdr.tag == TC_LIST && Points(setup.g, cdr) ==> cdr.datum in book.fwd)
    {
      hide Inv, KeysOk, AllWaiting, Live, BlockOk, Good, Handled;
      if cdr.tag != TC_LIST {
        return false;
      }
      HandledPointer(setup, Mem(), book, cdr);
      var next := PrecheckFrom(cdr.datum);
      more := next == 0;
    }

    /** Copies the rest of a list right behind its first pair, up to a pair copied before. */
    method TransportCdrs(newAddress: nat, ghost from: nat)
      requires Valid() && Phase(book.fwd.Keys)
      requires LastCopy(setup, book, from) && TailsNear(setup.g, book.fwd, {from})
      requires from in book.fwd && from in setup.g.blocks && setup.g.blocks[from] == Block(TupleKind, 2)
      requires newAddress == newspaceStart + book.fwd[from] && book.scan <= book.fwd[from]
      modifies this`tospaceNext, this`newspaceNext, this`ephemeronQueue, this`book, tospace, heap, ephemeronArray
      ensures Valid() && Phase(book.fwd.Keys) && Progress(old(book), book)
      ensures OutsideSame(setup, old(heap[..]), heap[..])
      ensures ListsKept()
    {
      hide Inv, KeysOk, AllWaiting, Live, BlockOk, Good, Handled, PlainCopy, Extend, Progress, TailsNear, LastCopy,
           Placed, WellFormed;
      ghost var b, last: nat := book, from;
      CdrCopied(setup, Mem(), book, from);
      var cdr := tospace[newAddress - newspaceStart + 1];
      var more := MoreToCopy(cdr);
      SameLast(setup, b, book, last);
      while more
        invariant Valid() && Handled(setup, cdr) && Progress(b, book)
        invariant OutsideSame(setup, old(heap[..]), heap[..])
        invariant if more
                  then cdr.tag == TC_LIST && Points(setup.g, cdr) && cdr.datum !in book.fwd && Phase(book.fwd.Keys + {cdr.datum})
                  else Phase(book.fwd.Keys) && (cdr.tag == TC_LIST && Points(setup.g, cdr) ==> cdr.datum in book.fwd)
        invariant LastCopy(setup, book, last) && TailsNear(setup.g, book.fwd, {last})
        invariant last in setup.g.blocks && setup.g.blocks[last] == Block(TupleKind, 2)
        invariant last + 1 < |setup.g.mem| && cdr == setup.g.mem[last + 1]
        decreases setup.g.blocks.Keys - book.fwd.Keys
      {
        ghost var b1, a := book, cdr.datum;
        TupleCopy(setup, Mem(), book, cdr);
        NextPending(setup, b1, last);
        var tail := TransportObject(cdr.datum, 2);
        last := a;
        NewLast(setup, b1, a);
        CopiedProgress(setup, b, b1, a);
        CdrCopied(setup, Mem(), book, a);
        cdr := tospace[tail - newspaceStart + 1];
        ghost var b2 := book;
        more := MoreToCopy(cdr);
        ProgressTrans(b, b2, book);
        SameLast(setup, b2, book, last);
      }
      NothingPending(setup, Mem(), book, last);
    }

    method GcTuple(tuple: Word, n: nat) returns (r: Word)
      requires Valid() && Phase(book.fwd.Keys) && ListsKept()
      requires tuple.tag.Tuple? && tuple.tag.words == n && Handled(setup, tuple)
      modifies this`tospaceNext, this`newspaceNext, this`ephemeronQueue, this`book, tospace, heap, ephemeronArray
      ensures Valid() && Phase(book.fwd.Keys) && ListsKept()
      ensures Progress(old(book), book) && Traced(setup, book.fwd, r, tuple)
      ensures OutsideSame(setup, old(heap[..]), heap[..])
    {
      hide Inv, KeysOk, AllWaiting, Live, BlockOk, Good, Handled, PlainCopy, Placed, WellFormed, TailsNear;
      var from := tuple.datum;
      ghost var b := book;
      HandledPointer(setup, Mem(), book, tuple);
      var newAddress := PrecheckFrom(from);
      if newAddress == 0 {
        ghost var b1 := book;
        TupleCopy(setup, Mem(), book, tuple);
        newAddress := TransportObject(from, n);
        CopiedProgress(setup, b, b1, from);
        if n == 2 {
          ghost var b2 := book;
          FirstPending(setup, b1, from);
          NewLast(setup, b1, from);
          TransportCdrs(newAddress, from);
          ProgressTrans(b, b2, book);
        } else {
          NoPair(setup, b1, book, from);
        }
      }
      r := Word(tuple.tag, newAddress);
    }

    method GcVector(vector: Word) returns (r: Word)
      requires Valid() && Phase(book.fwd.Keys) && ListsKept()
      requires vector.tag.Vector? && Handled(setup, vector)
      modifies this`tospaceNext, this`newspaceNext, this`ephemeronQueue, this`book, tospace, heap, ephemeronArray
      ensures Valid() && Phase(book.fwd.Keys) && ListsKept()
      ensures Progress(old(book), book) && Traced(setup, book.fwd, r, vector)
      ensures OutsideSame(setup, old(heap[..]), heap[..])
    {
      hide Inv, KeysOk, AllWaiting, Live, BlockOk, Good;
      var from := vector.datum;
      ghost var b := book;
      HandledPointer(setup, Mem(), book, vector);
      var newAddress := PrecheckFrom(from);
      if newAddress == 0 {
        ghost var b1 := book;
        VectorCopy(setup, Mem(), book, vector);
        newAddress := TransportObject(from, 1 + heap[from].datum);
        CopiedProgress(setup, b, b1, from);
        NoPair(setup, b1, book, from);
      }
      r := Word(vector.tag, newAddress);
    }

    /** The forwarded form of a pointer to a copied object, or `collected`. */
    method WeakReferentForward(w: Word, collected: Word) returns (r: Word)
      requires w.tag.IsPointer() && w.datum < heap.Length
      ensures r == if heap[w.datum].tag.BrokenHeart? then Word(w.tag, heap[w.datum].datum) else collected
    {
      r := if heap[w.datum].tag == BrokenHeart then Word(w.tag, heap[w.datum].datum) else collected;
    }

    method TransportWeakPair(pair: Word) returns (r: Word)
      requires Valid() && Phase(book.fwd.Keys + {pair.datum}) && ListsKept()
      requires pair.tag.WeakCons? && Handled(setup, pair) && Points(setup.g, pair) && pair.datum !in book.fwd
      modifies this`tospaceNext, this`newspaceNext, this`weakChain, this`book, tospace, heap
      ensures Valid() && Phase(book.fwd.Keys) && ListsKept()
      ensures Progress(old(book), book) && Traced(setup, book.fwd, r, pair)
      ensures OutsideSame(setup, old(heap[..]), heap[..])
    {
      hide Inv, KeysOk, AllWaiting, Live, Handled, Extend, ExtendWeak, Progress;
      var oldAddr := pair.datum;
      ghost var m, b := Mem(), book;
      WeakPairShape(setup, m, b, pair);
      TransportReady(setup, m, b, oldAddr);
      var newAddr := TransportWords(oldAddr, 2);
      var newIndex := newAddr - newspaceStart;
      var oldCar := tospace[newIndex];
      var carAddr := WeakReferentAddress(oldCar);
      assert Mem() == PlainMemory(setup, m, oldAddr);
      if carAddr != 0 && fromspaceStart <= carAddr < fromspaceEnd {
        tospace[newIndex] := Word(TC_FALSE, oldCar.datum);
        heap[oldAddr + 1] := if weakChain == 0 then Word(oldCar.tag, 0) else Word(oldCar.tag, weakChain);
        weakChain := oldAddr;
        assert Mem() == WeakMemory(setup, m, oldAddr);
        WeakDone(setup, m, b, pair);
        book := ExtendWeak(setup, b, oldAddr);
      } else {
        PlainWeakDone(setup, m, b, pair);
        book := Extend(setup, b, oldAddr);
      }
      WeakForwarded(setup, b, oldAddr);
      NoPair(setup, b, book, oldAddr);
      r := Word(pair.tag, newAddr);
    }

    method GcHandleWeakPair(pair: Word) returns (r: Word)
      requires Valid() && Phase(book.fwd.Keys) && ListsKept()
      requires pair.tag.WeakCons? && Handled(setup, pair)
      modifies this`tospaceNext, this`newspaceNext, this`weakChain, this`ephemeronQueue, this`book, tospace, heap, ephemeronArray
      ensures Valid() && Phase(book.fwd.Keys) && ListsKept()
      ensures Progress(old(book), book) && Traced(setup, book.fwd, r, pair)
      ensures OutsideSame(setup, old(heap[..]), heap[..])
    {
      hide Inv, KeysOk, AllWaiting, Live, BlockOk, Good, Handled, PlainCopy;
      ghost var b := book;
      HandledPointer(setup, Mem(), book, pair);
      var newAddress := PrecheckFrom(pair.datum);
      if newAddress != 0 {
        r := Word(pair.tag, newAddress);
      } else {
        ghost var b1 := book;
        r := TransportWeakPair(pair);
        ProgressTrans(b, b1, book);
      }
    }

    /** Whether a key cannot be collected, or has been copied already. */
    method GcInvariantOrLive(key: Word) returns (live: bool)
      requires Shape()
      requires key.tag.IsPointer() ==> key.datum != 0
      requires Points(setup.g, key) ==> key.datum < heap.Length
      ensures live <==> (Points(setup.g, key) ==> heap[key.datum].tag.BrokenHeart?)
    {
      var keyAddr := WeakReferentAddress(key);
      if keyAddr == 0 || !(fromspaceStart <= keyAddr < fromspaceEnd) {
        return true;
      }
      var forwarded := WeakReferentForward(key, SHARP_F);
      live := forwarded != SHARP_F;
    }

    /** Makes the scan skip the copy of e, and enters it in the table and the list. */
    method LinkEphemeron(newAddr: nat, keyAddr: nat, ghost e: nat, ghost m: Memory)
      requires Shape() && IsEphemeron(setup.g, e) && setup.g.blocks[e].size == EPHEMERON_SIZE && e < |m.heap| && |m.table| > 0
      requires Body(setup, e) == [MARKED_EPHEMERON_MANIFEST, Key(setup.g, e), Datum(setup.g, e), SHARP_F, SHARP_F]
      requires Mem() == PlainMemory(setup, m, e)
      requires newAddr == newspaceStart + |m.to| && keyAddr == Key(setup.g, e).datum
      modifies this`ephemeronList, tospace, ephemeronArray
      ensures Shape() && Mem() == ListedMemory(setup, m, e)
      ensures setup == old(setup) && book == old(book)
    {
      var newIndex := newAddr - newspaceStart;
      tospace[newIndex] := UNMARKED_EPHEMERON_MANIFEST;
      var index := keyAddr % ephemeronArray.Length;
      tospace[newIndex + EPHEMERON_NEXT] := ephemeronArray[index];
      ephemeronArray[index] := Word(Ephemeron, newAddr);
      tospace[newIndex + EPHEMERON_LIST] := ephemeronList;
      ephemeronList := Word(Ephemeron, newAddr);
      assert tospace[..tospaceNext] == m.to +
             [UNMARKED_EPHEMERON_MANIFEST, Key(setup.g, e), Datum(setup.g, e), m.list, m.table[index]];
    }

    method TransportEphemeron(ephemeron: Word) returns (r: Word)
      requires Valid() && Phase(book.fwd.Keys + {ephemeron.datum}) && ListsKept()
      requires ephemeron.tag.Ephemeron? && Handled(setup, ephemeron) && Points(setup.g, ephemeron) && ephemeron.datum !in book.fwd
      modifies this`tospaceNext, this`newspaceNext, this`ephemeronList, this`book
      modifies tospace, heap, ephemeronArray
      ensures Valid() && Phase(book.fwd.Keys) && ListsKept()
      ensures Progress(old(book), book) && Traced(setup, book.fwd, r, ephemeron)
      ensures OutsideSame(setup, old(heap[..]), heap[..])
    {
      hide Inv, KeysOk, AllWaiting, Live, Handled, Extend, ListedBook, Progress;
      var oldAddr := ephemeron.datum;
      ghost var m, b := Mem(), book;
      EphemeronShape(setup, m, b, ephemeron);
      TransportReady(setup, m, b, oldAddr);
      var newAddr := TransportWords(oldAddr, EPHEMERON_SIZE);
      var newIndex := newAddr - newspaceStart;
      var newEphemeron := Word(Ephemeron, newAddr);
      assert Mem() == PlainMemory(setup, m, oldAddr);
      var oldKey := tospace[newIndex + EPHEMERON_KEY];
      var keyAddr := WeakReferentAddress(oldKey);
      KeyForwarded(setup, m, b, oldAddr);
      var keyLive := GcInvariantOrLive(oldKey);
      if keyLive {
        tospace[newIndex] := MARKED_EPHEMERON_MANIFEST;
        assert Mem() == PlainMemory(setup, m, oldAddr);
        PlainEphemeronDone(setup, m, b, ephemeron);
        book := Extend(setup, b, oldAddr);
      } else {
        LinkEphemeron(newAddr, keyAddr, oldAddr, m);
        ListedDone(setup, m, b, ephemeron);
        book := ListedBook(setup, m, b, oldAddr);
        ListedForwarded(setup, m, b, oldAddr);
      }
      NoPair(setup, b, book, oldAddr);
      r := newEphemeron;
    }

    method GcHandleEphemeron(ephemeron: Word) returns (r: Word)
      requires Valid() && Phase(book.fwd.Keys) && ListsKept()
      requires ephemeron.tag.Ephemeron? && Handled(setup, ephemeron)
      modifies this`tospaceNext, this`newspaceNext, this`ephemeronList, this`ephemeronQueue, this`book
      modifies tospace, heap, ephemeronArray
      ensures Valid() && Phase(book.fwd.Keys) && ListsKept()
      ensures Progress(old(book), book) && Traced(setup, book.fwd, r, ephemeron)
      ensures OutsideSame(setup, old(heap[..]), heap[..])
    {
      hide Inv, KeysOk, AllWaiting, Live, BlockOk, Good, Handled, PlainCopy;
      ghost var b := book;
      HandledPointer(setup, Mem(), book, ephemeron);
      var newAddress := PrecheckFrom(ephemeron.datum);
      if newAddress != 0 {
        r := Word(ephemeron.tag, newAddress);
      } else {
        ghost var b1 := book;
        r := TransportEphemeron(ephemeron);
        ProgressTrans(b, b1, book);
      }
    }

    /** The handler for each type code, for words other than manifests. */
    method HandleObject(object_: Word) returns (r: Word)
      requires Valid() && Phase(book.fwd.Keys) && ListsKept() && Handled(setup, object_)
      modifies this`tospaceNext, this`newspaceNext, this`weakChain, this`ephemeronList
      modifies this`ephemeronQueue, this`book
      modifies tospace, heap, ephemeronArray
      ensures Valid() && Phase(book.fwd.Keys) && ListsKept()
      ensures Progress(old(book), book) && Traced(setup, book.fwd, r, object_)
      ensures OutsideSame(setup, old(heap[..]), heap[..])
    {
      hide Inv, KeysOk, AllWaiting, Live, BlockOk;
      match object_.tag
      case Tuple(n, _) => r := GcTuple(object_, n);
      case Vector(_) => r := GcVector(object_);
      case WeakCons => r := GcHandleWeakPair(object_);
      case Ephemeron => r := GcHandleEphemeron(object_);
      case Immediate(_) => r := object_;
    }

    method ScanWord(index: nat, word: Word)
      requires Valid() && Phase(book.fwd.Keys) && ListsKept()
      requires book.scan == index < tospaceNext && word == tospace[index] && !word.tag.ManifestNM?
      modifies this`tospaceNext, this`newspaceNext, this`weakChain, this`ephemeronList
      modifies this`ephemeronQueue, this`book
      modifies tospace, heap, ephemeronArray
      ensures Valid() && Phase(book.fwd.Keys) && ListsKept()
      ensures Advance(old(book), book) && book.scan == index + 1 <= tospaceNext
      ensures OutsideSame(setup, old(heap[..]), heap[..])
      ensures old(book).fwd.Keys <= book.fwd.Keys && (book.fwd.Keys == old(book).fwd.Keys ==> tospaceNext == old(tospaceNext))
    {
      hide Inv, KeysOk, AllWaiting, Handled;
      ghost var m, b := Mem(), book;
      HandledAtScan(setup, m, b);
      var r := HandleObject(word);
      ghost var m1, b1 := Mem(), book;
      UnscannedStays(setup, m, b, m1, b1);
      ProgressAdvance(b, b1);
      SameCopied(setup, m, b, m1, b1);
      StepKeeps(setup, m1, b1);
      tospace[index] := r;
      assert Mem() == StepMemory(setup, m1, b1);
      book := b1.(scan := index + 1);
      ScanPhase(setup, b1, index + 1, b1.fwd.Keys);
      AdvanceScan(b1, index + 1);
      AdvanceTrans(b, b1, book);
    }

    /** Scans tospace from `scan` to its end, wherever that gets to. */
    method GcScanTospace(scan: nat)
      requires Valid() && Phase(book.fwd.Keys) && ListsKept()
      requires newspaceStart <= scan <= newspaceNext && book.scan == scan - newspaceStart
      modifies this`tospaceNext, this`newspaceNext, this`weakChain, this`ephemeronList
      modifies this`ephemeronQueue, this`book
      modifies tospace, heap, ephemeronArray
      ensures Valid() && Phase(book.fwd.Keys) && ListsKept()
      ensures Advance(old(book), book) && book.scan == tospaceNext
      ensures OutsideSame(setup, old(heap[..]), heap[..])
    {
      hide Inv, KeysOk, AllWaiting, Handled, Progress, Advance;
      var index := scan - newspaceStart;
      AdvanceScan(book, book.scan);
      while index < tospaceNext
        invariant Valid() && Phase(book.fwd.Keys) && ListsKept() && book.scan == index <= tospaceNext
        invariant Advance(old(book), book) && OutsideSame(setup, old(heap[..]), heap[..])
        decreases setup.g.blocks.Keys - book.fwd.Keys, tospaceNext - index
      {
        ghost var b, n := book, tospaceNext;
        var word := tospace[index];
        ScanPhase(setup, b, index + 1 + word.datum, b.fwd.Keys);
        if word.tag == ManifestNM {
          SkipKeeps(setup, Mem(), book);
          index := index + 1 + word.datum;
          book := book.(scan := index);
          AdvanceScan(b, index);
          AdvanceTrans(old(book), b, book);
        } else {
          ScanWord(index, word);
          index := index + 1;
          AdvanceTrans(old(book), b, book);
          MoreCopied(setup, Mem(), b, book);
        }
      }
    }

    /** Scans a root area of oldspace. */
    method GcScanOldspace(start: nat, end: nat, ghost points: set<nat>)
      requires Valid() && Phase(book.fwd.Keys) && ListsKept()
      requires end <= heap.Length && (end <= fromspaceStart || fromspaceEnd <= start)
      requires points == ScanPoints(heap[..], start, end)
      requires forall x | x in points :: heap[x] in setup.roots
      modifies this`tospaceNext, this`newspaceNext, this`weakChain, this`ephemeronList
      modifies this`ephemeronQueue, this`book
      modifies tospace, heap, ephemeronArray
      ensures Valid() && Phase(book.fwd.Keys) && ListsKept()
      ensures Progress(old(book), book)
      ensures AreaScanned(setup, book.fwd, old(heap[..]), heap[..], points, end)
    {
      hide Inv, KeysOk, AllWaiting, Handled, Progress, ScanPoints, Remaining, AreaScanned, Traced;
      var scan := start;
      ghost var h0, b0 := heap[..], book;
      AreaStart(setup, book.fwd, h0, points, start, end);
      ProgressSelf(book);
      while scan < end
        invariant start <= scan && Valid() && Phase(book.fwd.Keys) && ListsKept() && Progress(b0, book) && heap.Length == |h0|
        invariant Remaining(h0, points, scan, end)
        invariant AreaScanned(setup, book.fwd, h0, heap[..], points, scan)
      {
        ghost var b := book;
        AreaWord(setup, book.fwd, h0, heap[..], points, scan);
        var word := heap[scan];
        RemainingStep(h0, points, scan, end);
        if word.tag == ManifestNM {
          AreaSkip(setup, book.fwd, h0, heap[..], points, scan, scan + 1 + word.datum);
          scan := scan + 1 + word.datum;
        } else {
          HandledRoot(setup, Mem(), book, word);
          ghost var h := heap[..];
          var r := HandleObject(word);
          AreaStep(setup, b, book, h0, h, heap[..], points, scan, r);
          OldspaceWrite(setup, Mem(), book, scan, r);
          ghost var m := Mem();
          heap[scan] := r;
          assert Mem() == m.(heap := m.heap[scan := r]);
          ProgressTrans(b0, b, book);
          scan := scan + 1;
        }
      }
      AreaEnd(setup, book.fwd, h0, heap[..], points, scan, end);
    }

    /** Queues the listed ephemerons whose keys the scan has found live. */
    method QueueLiveEphemerons()
      requires Valid() && AllWaiting(book) && DistinctKeys(setup.g, setup.roots)
      modifies this`ephemeronQueue, this`book, tospace, ephemeronArray
      ensures Valid() && KeysOk(setup, book, book.fwd.Keys)
      ensures book.fwd == old(book).fwd && book.scan == old(book).scan && book.own == old(book).own
      ensures forall e | e in book.status :: !book.status[e].Popped? && !book.status[e].Scanned?
    {
      hide Inv, KeysOk, Links, QueuedFor;
      ghost var p: nat := 0;
      var ephemeron := ephemeronList;
      ListStart(setup, Mem(), book);
      while ephemeron.tag == Ephemeron
        invariant Valid() && FirstQueued(setup, book, p) && ephemeron == RefAt(setup, book.fwd, book.elist, p)
        invariant book.fwd == old(book).fwd && book.scan == old(book).scan && book.own == old(book).own
        decreases |book.elist| - p
      {
        ghost var e := book.elist[p];
        ListItem(setup, Mem(), book, p);
        var index := ephemeron.datum - newspaceStart;
        var oldKey := tospace[index + EPHEMERON_KEY];
        ephemeron := tospace[index + EPHEMERON_LIST];
        var forwarded := WeakReferentForward(oldKey, SHARP_F);
        ghost var m, b := Mem(), book;
        if forwarded != SHARP_F {
          TableSize(setup, m, b);
          CopiedIsLive(setup, m, b, oldKey.datum);
          DistinctStops(setup, m, b, oldKey.datum);
          QueueEphemeronsForKey(WeakReferentAddress(oldKey));
          QueuedSame(setup, b, book, oldKey.datum);
        }
        QueuedStep(setup, m, b, book, p);
        p := p + 1;
      }
      ListEnd(setup, Mem(), book, p);
      AllQueued(setup, Mem(), book);
      FirstStatuses(setup, Mem(), book, p);
    }

    /** Takes an ephemeron off the queue and scans its datum. */
    method ScanNextDatum() returns (savedNext: nat)
      requires Valid() && scanningEphemerons && Phase(book.fwd.Keys) && ListsKept() && book.scan == tospaceNext
      requires ephemeronQueue.tag.Ephemeron?
      requires forall e | e in book.status :: !book.status[e].Popped?
      modifies this`tospaceNext, this`newspaceNext, this`weakChain, this`ephemeronList
      modifies this`ephemeronQueue, this`book
      modifies tospace, heap, ephemeronArray
      ensures Valid() && Phase(book.fwd.Keys) && ListsKept()
      ensures newspaceStart <= savedNext <= newspaceNext && book.scan == savedNext - newspaceStart
      ensures Turn(old(book), book)
      ensures OutsideSame(setup, old(heap[..]), heap[..])
    {
      hide Inv, KeysOk, AllWaiting, Handled, Links, RefAt, Turn;
      ghost var b := book;
      QueueFront(setup, Mem(), b);
      ghost var e := b.queued[0];
      var index := ephemeronQueue.datum - newspaceStart;
      PopPhase(setup, Mem(), b, b.fwd.Keys);
      PopKeeps(setup, Mem(), b);
      ghost var m := Mem();
      ephemeronQueue := tospace[index + EPHEMERON_NEXT];
      assert Mem() == PopMemory(m, b);
      book := PopBook(b);
      ghost var b1, m1 := book, Mem();
      savedNext := newspaceNext;
      PoppedDatum(setup, m1, b1, e);
      var word := tospace[index + EPHEMERON_DATUM];
      var r := HandleObject(word);
      ghost var b2, m2 := book, Mem();
      SameCopied(setup, m1, b1, m2, b2);
      PoppedStays(setup, m2, b1, b2, e);
      DatumKeeps(setup, m2, b2, e);
      tospace[index + EPHEMERON_DATUM] := r;
      assert Mem() == DatumMemory(setup, m2, b2, e);
      book := DatumBook(b2, e);
      DatumPhase(setup, b2, e, b2.fwd.Keys);
      TurnMade(b, b1, b2, e);
    }

    method ScanEphemerons()
      requires Valid() && !scanningEphemerons && Phase(book.fwd.Keys) && ListsKept() && book.scan == tospaceNext
      modifies this`tospaceNext, this`newspaceNext, this`weakChain, this`ephemeronList
      modifies this`ephemeronQueue, this`book
      modifies this`scanningEphemerons, tospace, heap, ephemeronArray
      ensures Valid() && !scanningEphemerons && ScanComplete(setup, Mem(), book)
      ensures Grows(old(book).fwd, book.fwd)
      ensures ListsKept()
      ensures OutsideSame(setup, old(heap[..]), heap[..])
    {
      hide Inv, KeysOk, Handled, Links, RefAt, Turn, Advance;
      QueueLiveEphemerons();
      scanningEphemerons := true;
      while ephemeronQueue.tag == Ephemeron
        invariant Valid() && scanningEphemerons && Phase(book.fwd.Keys) && ListsKept() && book.scan == tospaceNext
        invariant forall e | e in book.status :: !book.status[e].Popped?
        invariant Grows(old(book).fwd, book.fwd) && OutsideSame(setup, old(heap[..]), heap[..])
        decreases setup.g.blocks.Keys - book.fwd.Keys, Unscanned(book)
      {
        ghost var b := book;
        var savedNext := ScanNextDatum();
        ghost var b1 := book;
        GcScanTospace(savedNext);
        TurnDone(b, b1, book);
        MoreCopied(setup, Mem(), b, book);
      }
      NoneQueued(setup, Mem(), book);
      scanningEphemerons := false;
    }

    method UpdateEphemerons()
      requires Valid() && ScanComplete(setup, Mem(), book)
      modifies this`ephemeronList, tospace
      ensures Shape() && ephemeronList == SHARP_F
      ensures EphemeronsDone(setup, old(Mem()), book, tospace[..tospaceNext], |book.elist|)
    {
      hide Inv, ScanComplete, Links, EphemeronsDone, Settled, Broken;
      ghost var m, p := Mem(), 0;
      var ephemeron := ephemeronList;
      EphemeronsStart(setup, m, book);
      while ephemeron.tag == Ephemeron
        invariant Shape() && p <= |book.elist| && ephemeron == RefAt(setup, book.fwd, book.elist, p)
        invariant EphemeronsDone(setup, m, book, tospace[..tospaceNext], p)
        invariant Mem() == m.(to := tospace[..tospaceNext])
        decreases |book.elist| - p
      {
        ghost var e, to := book.elist[p], tospace[..tospaceNext];
        NextEphemeron(setup, m, book, to, p);
        KeyObjectOf(setup, m, book, e);
        var index := ephemeron.datum - newspaceStart;
        var oldKey := tospace[index + EPHEMERON_KEY];
        var newKey := WeakReferentForward(oldKey, SHARP_F);
        tospace[index] := MARKED_EPHEMERON_MANIFEST;
        tospace[index + EPHEMERON_KEY] := newKey;
        ephemeron := tospace[index + EPHEMERON_LIST];
        tospace[index + EPHEMERON_LIST] := SHARP_F;
        tospace[index + EPHEMERON_NEXT] := SHARP_F;
        if newKey == SHARP_F {
          tospace[index + EPHEMERON_DATUM] := SHARP_F;
        }
        NewKey(setup, book.fwd, e, newKey);
        assert tospace[..tospaceNext] == SettledEphemeron(setup, book.fwd, to, index, e);
        EphemeronDone(setup, m, book, to, p);
        p := p + 1;
      }
      ElistEnd(setup, m, book, p);
      ephemeronList := SHARP_F;
    }

    method UpdateWeakPairs(ghost m: Memory, ghost to0: seq<Word>)
      requires Shape() && ScanComplete(setup, m, book) && EphemeronsDone(setup, m, book, to0, |book.elist|)
      requires to0 == tospace[..tospaceNext] && heap[..] == m.heap && weakChain == m.weakChain
      modifies this`weakChain, tospace
      ensures Shape() && weakChain == 0
      ensures AllSettled(setup, book, tospace[..tospaceNext])
    {
      hide Inv, ScanComplete, EphemeronsDone, WeakDoneTo, Settled;
      ghost var p := 0;
      WeakStart(setup, m, book, to0);
      while weakChain != 0
        invariant Shape() && p <= |book.chain| && weakChain == ChainAt(book.chain, p) && heap[..] == m.heap
        invariant WeakDoneTo(setup, m, book, to0, tospace[..tospaceNext], p)
        decreases |book.chain| - p
      {
        ghost var to, a := tospace[..tospaceNext], book.chain[p];
        NextWeak(setup, m, book, to0, to, p);
        var newIndex := heap[weakChain].datum - newspaceStart;
        var obj := heap[weakChain + 1];
        var oldCar := Word(obj.tag, tospace[newIndex].datum);
        var car := WeakReferentForward(oldCar, GC_RECLAIMED);
        NewCar(setup, book.fwd, a, car);
        tospace[newIndex] := car;
        assert tospace[..tospaceNext] == to[newIndex := car];
        WeakStep(setup, m, book, to0, to, p);
        weakChain := if obj.datum == 0 then 0 else obj.datum;
        p := p + 1;
      }
      ChainEnd(setup, m, book, p);
      Settles(setup, m, book, to0, tospace[..tospaceNext]);
    }

    /** Finishes a collection once everything strongly reachable has been scanned. */
    method UpdateWeakPointers()
      requires Valid() && !scanningEphemerons && Phase(book.fwd.Keys) && ListsKept() && book.scan == tospaceNext
      modifies this`tospaceNext, this`newspaceNext, this`weakChain, this`ephemeronList
      modifies this`ephemeronQueue, this`book
      modifies this`scanningEphemerons, tospace, heap, ephemeronArray
      ensures Shape() && AllSettled(setup, book, tospace[..tospaceNext]) && Placed(setup, book)
      ensures Grows(old(book).fwd, book.fwd)
      ensures RootsTraced(setup, book.fwd) ==> forall a :: a in book.fwd <==> Live(setup.g, setup.roots, a)
      ensures ListsKept()
      ensures OutsideSame(setup, old(heap[..]), heap[..])
    {
      hide Inv, ScanComplete, EphemeronsDone, AllSettled, KeysOk, AllWaiting;
      ScanEphemerons();
      ghost var m := Mem();
      ScanCompleteInv(setup, m, book);
      InvPlaced(setup, m, book);
      if RootsTraced(setup, book.fwd) { CopiedLive(setup, m, book); }
      UpdateEphemerons();
      UpdateWeakPairs(m, tospace[..tospaceNext]);
    }

    method AddToTospace(word: Word)
      requires tospaceNext < tospace.Length
      modifies this`tospaceNext, this`newspaceNext, tospace
      ensures tospaceNext == old(tospaceNext) + 1 && newspaceNext == old(newspaceNext) + 1
      ensures tospace[..tospaceNext] == old(tospace[..tospaceNext]) + [word]
    {
      tospace[tospaceNext] := word;
      tospaceNext, newspaceNext := tospaceNext + 1, newspaceNext + 1;
    }

    /** Nothing has been collected yet. */
    ghost predicate Unopened()
      reads this, ephemeronArray
    {
      && heap != tospace && heap != ephemeronArray && tospace != ephemeronArray
      && !scanningEphemerons
      && ephemeronList == ephemeronQueue == SHARP_F
      && ephemeronArray.Length > 0
      && forall i | 0 <= i < ephemeronArray.Length :: ephemeronArray[i] == SHARP_F
    }

    /** Opens tospace and scans the root areas. */
    method ScanRoots(fixedObjects: Word, history: Word, stackPointer: nat, stackEnd: nat, constantStart: nat, constantEnd: nat,
                    ghost g: Graph)
      requires Unopened()
      requires g.mem == heap[..] && g.lo == fromspaceStart && g.hi == fromspaceEnd && WellFormed(g)
      requires 0 < newspaceStart && 2 + (g.hi - g.lo) <= tospace.Length
      requires Area(g, stackPointer, stackEnd) && Area(g, constantStart, constantEnd)
      requires stackEnd <= constantStart || constantEnd <= stackPointer
      requires DistinctKeys(g, RootWords(g, fixedObjects, history, stackPointer, stackEnd, constantStart, constantEnd))
      requires forall w | w in RootWords(g, fixedObjects, history, stackPointer, stackEnd, constantStart, constantEnd) ::
                 Good(g, w)
      modifies this, tospace, heap, ephemeronArray
      ensures Valid() && !scanningEphemerons && Phase(book.fwd.Keys) && ListsKept() && book.scan == 0
      ensures setup == Setup(g, RootWords(g, fixedObjects, history, stackPointer, stackEnd, constantStart, constantEnd),
                             newspaceStart, [fixedObjects, history])
      ensures AreaScanned(setup, book.fwd, g.mem, heap[..],
                          ScanPoints(g.mem, stackPointer, stackEnd) + ScanPoints(g.mem, constantStart, constantEnd), |g.mem|)
    {
      hide WellFormed, DistinctKeys, Good, Inv, ScanPoints, AreaScanned, AllSettled, Placed, Progress, Advance,
           RootsTraced, Live, SetupOk, RootWords, AreaWords, OpenBook, AllWaiting, KeysOk;
      ghost var roots := RootWords(g, fixedObjects, history, stackPointer, stackEnd, constantStart, constantEnd);
      RootParts(g, fixedObjects, history, stackPointer, stackEnd, constantStart, constantEnd);
      OpenSpaces(fixedObjects, history, g, roots);
      ghost var p1, p2 := ScanPoints(g.mem, stackPointer, stackEnd), ScanPoints(g.mem, constantStart, constantEnd);
      ghost var b0 := book;
      GcScanOldspace(stackPointer, stackEnd, p1);
      ghost var b1, h1 := book, heap[..];
      SecondArea(setup, b1.fwd, g.mem, h1, p1, stackPointer, stackEnd, constantStart, constantEnd);
      GcScanOldspace(constantStart, constantEnd, p2);
      ghost var b2, h2 := book, heap[..];
      BothAreas(setup, b1, b2, g.mem, h1, h2, p1, p2, stackPointer, stackEnd, constantStart, constantEnd);
      ScanStart(b0, b1, b2);
    }

    /** A whole collection, up to the copy of tospace over newspace. */
    method StdGcPt1(fixedObjects: Word, history: Word, stackPointer: nat, stackEnd: nat, constantStart: nat, constantEnd: nat,
                    ghost g: Graph)
      requires Unopened()
      requires g.mem == heap[..] && g.lo == fromspaceStart && g.hi == fromspaceEnd && WellFormed(g)
      requires 0 < newspaceStart && 2 + (g.hi - g.lo) <= tospace.Length
      requires Area(g, stackPointer, stackEnd) && Area(g, constantStart, constantEnd)
      requires stackEnd <= constantStart || constantEnd <= stackPointer
      requires DistinctKeys(g, RootWords(g, fixedObjects, history, stackPointer, stackEnd, constantStart, constantEnd))
      requires forall w | w in RootWords(g, fixedObjects, history, stackPointer, stackEnd, constantStart, constantEnd) ::
                 Good(g, w)
      modifies this, tospace, heap, ephemeronArray
      ensures setup.g == g && setup.newStart == newspaceStart && setup.seeds == [fixedObjects, history]
      ensures setup.roots == RootWords(g, fixedObjects, history, stackPointer, stackEnd, constantStart, constantEnd)
      ensures tospaceNext <= tospace.Length && Finished(setup, book, tospace[..tospaceNext])
      ensures forall a | a in book.fwd && a in g.blocks && g.blocks[a] == Block(TupleKind, 2) && a + 1 < |g.mem|
                         && g.mem[a + 1].tag == TC_LIST && g.lo <= g.mem[a + 1].datum < g.hi ::
                && g.mem[a + 1].datum in book.fwd
                && (book.fwd[g.mem[a + 1].datum] == book.fwd[a] + 2 || book.fwd[g.mem[a + 1].datum] <= book.fwd[a])
      ensures AreaScanned(setup, book.fwd, g.mem, heap[..],
                          ScanPoints(g.mem, stackPointer, stackEnd) + ScanPoints(g.mem, constantStart, constantEnd), |g.mem|)
    {
      hide WellFormed, DistinctKeys, Good, Inv, ScanPoints, AreaScanned, Live, RootWords, AllWaiting, KeysOk, Finished,
           TailsNear;
      ScanRoots(fixedObjects, history, stackPointer, stackEnd, constantStart, constantEnd, g);
      ghost var p1, p2 := ScanPoints(g.mem, stackPointer, stackEnd), ScanPoints(g.mem, constantStart, constantEnd);
      ScanRest(book, heap[..], p1, p2, stackPointer, stackEnd, constantStart, constantEnd);
      ListsTogether(setup, book, tospace[..tospaceNext]);
    }

    method OpenSpaces(fixedObjects: Word, history: Word, ghost g: Graph, ghost roots: set<Word>)
      requires Unopened()
      requires g.mem == heap[..] && g.lo == fromspaceStart && g.hi == fromspaceEnd && WellFormed(g) && DistinctKeys(g, roots)
      requires 0 < newspaceStart && 2 + (g.hi - g.lo) <= tospace.Length
      requires fixedObjects in roots && history in roots && forall w | w in roots :: Good(g, w)
      modifies this, tospace
      ensures Valid() && !scanningEphemerons && Phase(book.fwd.Keys) && ListsKept() && book.scan == 0
      ensures setup == Setup(g, roots, newspaceStart, [fixedObjects, history])
    {
      assert g.lo <= g.hi;
      hide WellFormed, DistinctKeys, Good, Inv, SetupOk;
      setup := Setup(g, roots, newspaceStart, [fixedObjects, history]);
      tospaceNext, newspaceNext, weakChain := 0, newspaceStart, 0;
      AddToTospace(fixedObjects);
      AddToTospace(history);
      book := OpenBook(ephemeronArray.Length);
      OpenInv(setup, Mem(), book);
    }

    /** From the end of the root areas on. */
    method ScanRest(ghost b: Book, ghost h: seq<Word>, ghost p1: set<nat>, ghost p2: set<nat>,
                    ghost s1: nat, ghost e1: nat, ghost s2: nat, ghost e2: nat)
      requires Valid() && !scanningEphemerons && Phase(book.fwd.Keys) && ListsKept() && book == b && book.scan == 0 && h == heap[..]
      requires Area(setup.g, s1, e1) && Area(setup.g, s2, e2)
      requires p1 == ScanPoints(setup.g.mem, s1, e1) && p2 == ScanPoints(setup.g.mem, s2, e2)
      requires |setup.seeds| == 2 && setup.roots == RootWords(setup.g, setup.seeds[0], setup.seeds[1], s1, e1, s2, e2)
      requires AreaScanned(setup, book.fwd, setup.g.mem, heap[..], p1 + p2, |setup.g.mem|)
      modifies this`tospaceNext, this`newspaceNext, this`weakChain, this`ephemeronList
      modifies this`ephemeronQueue, this`book
      modifies this`scanningEphemerons, tospace, heap, ephemeronArray
      ensures tospaceNext <= tospace.Length && Finished(setup, book, tospace[..tospaceNext])
      ensures ListsKept()
      ensures AreaScanned(setup, book.fwd, setup.g.mem, heap[..], p1 + p2, |setup.g.mem|)
    {
      hide WellFormed, DistinctKeys, Good, Inv, ScanPoints, AreaScanned, AllSettled, Placed, Progress, Advance,
           RootsTraced, Live, SetupOk, RootWords, AllWaiting, KeysOk;
      InvSetup(setup, Mem(), book);
      GcScanTospace(newspaceStart);
      ghost var b3, h3 := book, heap[..];
      RootsDone(setup, Mem(), b, b3, setup.g.mem, h, p1, p2, s1, e1, s2, e2);
      UpdateWeakPointers();
      AreasKept(setup, b, b3, book, setup.g.mem, h, h3, heap[..], p1 + p2);
      RootsTracedMono(setup, b3.fwd, book.fwd);
    }
  }
}
