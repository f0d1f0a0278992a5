/**
 The dump of src/microcode/fasdump.c: objects are copied as by the collector, and the words their
 broken hearts overwrite are logged and put back.
 */
module Fasdump {
  import opened Common
  import opened Objects
  import opened HeapGraph
  import opened DumpImages

  datatype Fixup = Fixup(addr: nat, word: Word)

  datatype EnvMode = FeError | FeDump | FeDropCc

  const SYMBOL_GLOBAL_VALUE := 1
  const INITIAL_FIXUPS := 64

  // ----- the log -----

  /** No address is logged twice. */
  ghost predicate OncePerAddress(log: seq<Fixup>) {
    forall i, j | 0 <= i < j < |log| :: log[i].addr != log[j].addr
  }

  ghost predicate Logged(log: seq<Fixup>, x: nat) {
    exists i :: 0 <= i < |log| && log[i].addr == x
  }

  lemma PrefixLogged(log: seq<Fixup>, log': seq<Fixup>, x: nat)
    requires log <= log'
    ensures Logged(log, x) ==> Logged(log', x)
  {
    if Logged(log, x) {
      var i :| 0 <= i < |log| && log[i].addr == x;
      assert log'[i] == log[i];
    }
  }

  /** Memory differs from its contents before the dump exactly at the logged addresses, which hold broken hearts. */
  ghost predicate LogOk(mem: seq<Word>, heap: seq<Word>, log: seq<Fixup>) {
    && |heap| == |mem|
    && OncePerAddress(log)
    && (forall i | 0 <= i < |log| ::
          && log[i].addr < |mem|
          && log[i].word == mem[log[i].addr]
          && heap[log[i].addr].tag.BrokenHeart? && heap[log[i].addr].datum != 0)
    && (forall x | 0 <= x < |mem| && !Logged(log, x) :: heap[x] == mem[x])
  }

  /** Replaying a log from its first entry. */
  function Replay(heap: seq<Word>, log: seq<Fixup>): (r: seq<Word>)
    ensures |r| == |heap|
  {
    if log == [] then heap
    else
      var r := Replay(heap, log[..|log| - 1]);
      var f := log[|log| - 1];
      if f.addr < |r| then r[f.addr := f.word] else r
  }

  /** An address keeps its word under a replay of entries for other addresses. */
  lemma {:induction false} ReplayOther(heap: seq<Word>, log: seq<Fixup>, x: nat)
    requires x < |heap| && !Logged(log, x)
    ensures Replay(heap, log)[x] == heap[x]
  {
    if log != [] {
      var shorter := log[..|log| - 1];
      PrefixLogged(shorter, log, x);
      ReplayOther(heap, shorter, x);
      assert log[|log| - 1].addr != x;
    }
  }

  /** An address gets the word of the last entry for it. */
  lemma {:induction false} ReplayLast(heap: seq<Word>, log: seq<Fixup>, i: nat)
    requires i < |log| && log[i].addr < |heap|
    requires forall j | i < j < |log| :: log[j].addr != log[i].addr
    ensures Replay(heap, log)[log[i].addr] == log[i].word
  {
    var shorter := log[..|log| - 1];
    if i < |shorter| {
      assert forall k | 0 <= k < |shorter| :: shorter[k] == log[k];
      ReplayLast(heap, shorter, i);
    }
  }

  /** At any time during a dump, replaying the log restores memory. */
  lemma ReplayRestores(mem: seq<Word>, heap: seq<Word>, log: seq<Fixup>)
    requires LogOk(mem, heap, log)
    ensures Replay(heap, log) == mem
  {
    forall x | 0 <= x < |mem|
      ensures Replay(heap, log)[x] == mem[x]
    {
      if Logged(log, x) {
        var i :| 0 <= i < |log| && log[i].addr == x;
        ReplayLast(heap, log, i);
      } else {
        ReplayOther(heap, log, x);
      }
    }
  }

  /** At any time, logging an address again would leave the broken heart there after a replay. */
  lemma TwiceLoggedFails(mem: seq<Word>, heap: seq<Word>, log: seq<Fixup>, a: nat)
    requires LogOk(mem, heap, log) && Logged(log, a) && !mem[a].tag.BrokenHeart?
    ensures Replay(heap, log + [Fixup(a, heap[a])])[a] == heap[a] != mem[a]
  {
    ReplayLast(heap, log + [Fixup(a, heap[a])], |log|);
  }

  lemma LogGrows(mem: seq<Word>, heap: seq<Word>, log: seq<Fixup>, a: nat, address: nat)
    requires LogOk(mem, heap, log) && a < |heap| && !Logged(log, a) && address != 0
    ensures LogOk(mem, heap[a := Word(BrokenHeart, address)], log + [Fixup(a, heap[a])])
  {
    var log' := log + [Fixup(a, heap[a])];
    forall x | 0 <= x < |mem| && !Logged(log', x)
      ensures !Logged(log, x) && x != a
    {
      PrefixLogged(log, log', x);
      assert log'[|log|].addr == a;
    }
    forall i, j | 0 <= i < j < |log'|
      ensures log'[i].addr != log'[j].addr
    {
      assert log'[i] == log[i];
    }
  }

  predicate IsHeart(w: Word) {
    w.tag.BrokenHeart? && w.datum != 0
  }

  /** Where an object was copied to never changes. */
  ghost predicate HeartsStay(heap: seq<Word>, heap': seq<Word>) {
    && |heap'| == |heap|
    && forall x | 0 <= x < |heap| && IsHeart(heap[x]) :: heap'[x] == heap[x]
  }

  lemma HeartsStayTrans(h0: seq<Word>, h1: seq<Word>, h2: seq<Word>)
    requires HeartsStay(h0, h1) && HeartsStay(h1, h2)
    ensures HeartsStay(h0, h2)
  {
  }

  lemma NewHeart(heap: seq<Word>, a: nat, w: Word)
    requires a < |heap| && !IsHeart(heap[a])
    ensures HeartsStay(heap, heap[a := w])
  {
  }

  /** The word that stands for w in the dump: a pointer gets the address in its object's broken heart. */
  ghost predicate Forwards(heap: seq<Word>, w: Word, r: Word) {
    if w.tag.IsPointer() then w.datum < |heap| && IsHeart(heap[w.datum]) && r == Word(w.tag, heap[w.datum].datum)
    else r == w
  }

  // ----- what the scan meets -----

  /** A graph in which every pointer is to an object of the graph. */
  ghost predicate DumpGraph(g: Graph) {
    && WellFormed(g) && g.lo == 1 && g.hi == |g.mem|
  }

  /** A word the dump's scan can handle. */
  ghost predicate Dumpable(g: Graph, w: Word) {
    w == BROKEN_HEART_ZERO || (Good(g, w) && (w.tag.IsPointer() ==> Points(g, w)))
  }

  ghost predicate AllDumpable(g: Graph) {
    forall x | 0 <= x < |g.mem| && Good(g, g.mem[x]) :: Dumpable(g, g.mem[x])
  }

  /** A scan of `to` from i meets only words it can handle, and ends where `to` does. */
  ghost predicate Scannable(g: Graph, to: seq<Word>, i: nat)
    decreases |to| - i
  {
    if i >= |to| then i == |to|
    else if to[i].tag.ManifestNM? then Scannable(g, to, i + 1 + to[i].datum)
    else Dumpable(g, to[i]) && Scannable(g, to, i + 1)
  }

  /** Putting a scannable block at the end of scannable memory keeps it scannable. */
  lemma {:induction false} ScannableAppend(g: Graph, to: seq<Word>, i: nat, block: seq<Word>)
    requires Scannable(g, to, i) && Scannable(g, block, 0)
    ensures Scannable(g, to + block, i)
    decreases |to| - i
  {
    if i >= |to| {
      ScannableShift(g, to, block, 0);
    } else if to[i].tag.ManifestNM? {
      ScannableAppend(g, to, i + 1 + to[i].datum, block);
    } else {
      ScannableAppend(g, to, i + 1, block);
    }
  }

  lemma {:induction false} ScannableShift(g: Graph, to: seq<Word>, block: seq<Word>, j: nat)
    requires Scannable(g, block, j)
    ensures Scannable(g, to + block, |to| + j)
    decreases |block| - j
  {
    if j < |block| {
      assert (to + block)[|to| + j] == block[j];
      ScannableShift(g, to, block, if block[j].tag.ManifestNM? then j + 1 + block[j].datum else j + 1);
    }
  }

  /** What is behind the scan pointer does not matter. */
  lemma {:induction false} ScannableBehind(g: Graph, to: seq<Word>, to': seq<Word>, i: nat)
    requires Scannable(g, to, i) && |to'| == |to| && i <= |to| && to'[i..] == to[i..]
    ensures Scannable(g, to', i)
    decreases |to| - i
  {
    if i < |to| {
      assert to'[i] == to'[i..][0] == to[i..][0] == to[i];
      var k := if to[i].tag.ManifestNM? then i + 1 + to[i].datum else i + 1;
      assert to[i].tag.ManifestNM? ==> k <= |to| by { ScannableBound(g, to, k); }
      assert to'[k..] == to'[i..][k - i..] && to[k..] == to[i..][k - i..];
      ScannableBehind(g, to, to', k);
    }
  }

  lemma ScannableBound(g: Graph, to: seq<Word>, i: nat)
    ensures Scannable(g, to, i) ==> i <= |to|
  {
  }

  lemma {:induction false} AllWordsScannable(g: Graph, s: seq<Word>, i: nat)
    requires i <= |s| && forall k | i <= k < |s| :: Dumpable(g, s[k])
    ensures Scannable(g, s, i)
    decreases |s| - i
  {
    if i < |s| {
      assert Dumpable(g, s[i]);
      AllWordsScannable(g, s, i + 1);
    }
  }

  function BlockWords(g: Graph, a: nat): seq<Word>
    requires a in g.blocks && a + g.blocks[a].size <= |g.mem|
  {
    g.mem[a..a + g.blocks[a].size]
  }

  /** Every object's words can be scanned. */
  lemma BlockScannable(g: Graph, a: nat)
    requires DumpGraph(g) && AllDumpable(g) && a in g.blocks
    ensures a + g.blocks[a].size <= |g.mem| && Scannable(g, BlockWords(g, a), 0)
  {
    assert BlockOk(g, a);
    var s := BlockWords(g, a);
    if g.blocks[a].kind.RawKind? {
      assert s[0] == Word(ManifestNM, |s| - 1);
    } else {
      forall k | 0 <= k < |s|
        ensures Dumpable(g, s[k])
      {
        assert s[k] == g.mem[a + k] && Good(g, g.mem[a + k]);
      }
      AllWordsScannable(g, s, 0);
    }
  }

  /** Rewriting a symbol's value in its copy keeps the copy scannable. */
  lemma SymbolScannable(g: Graph, to: seq<Word>, i: nat, block: seq<Word>, w: Word)
    requires Scannable(g, to, i) && |block| == 2 && Dumpable(g, block[0]) && Dumpable(g, w) && !w.tag.ManifestNM?
    requires !block[0].tag.ManifestNM?
    ensures Scannable(g, to + [block[0], w], i)
  {
    AllWordsScannable(g, [block[0], w], 0);
    ScannableAppend(g, to, i, [block[0], w]);
  }

  ghost predicate AllInside(g: Graph, log: seq<Fixup>) {
    forall i | 0 <= i < |log| :: log[i].addr in g.blocks
  }

  /** An object is intact in memory unless its first word has been overwritten. */
  lemma ObjectIntact(g: Graph, heap: seq<Word>, log: seq<Fixup>, a: nat)
    requires DumpGraph(g) && LogOk(g.mem, heap, log) && a in g.blocks
    requires AllInside(g, log)
    ensures BlockOk(g, a) && a + g.blocks[a].size <= |heap|
    ensures Logged(log, a) <==> heap[a].tag.BrokenHeart?
    ensures heap[a].tag.BrokenHeart? ==> heap[a].datum != 0
    ensures !Logged(log, a) ==> heap[a..a + g.blocks[a].size] == BlockWords(g, a)
  {
    assert BlockOk(g, a);
    forall x | a < x < a + g.blocks[a].size
      ensures !Logged(log, x)
    {
      assert x !in g.blocks;
    }
    assert !g.mem[a].tag.BrokenHeart?;
    assert Logged(log, a) ==> heap[a].tag.BrokenHeart?;
  }

  ghost predicate HeartsPlaced(d: Dump, heap: seq<Word>) {
    forall a | a in d.place :: a < |heap| && heap[a] == Word(BrokenHeart, d.start + d.place[a])
  }

  ghost predicate LogPlaced(d: Dump, log: seq<Fixup>) {
    forall i | 0 <= i < |log| :: log[i].addr in d.place
  }

  /** The image so far, the broken hearts in memory, and the log agree on what has been copied, and to where. */
  ghost predicate InStep(g: Graph, root: Word, d: Dump, was: seq<Word>, heap: seq<Word>, log: seq<Fixup>) {
    Laid(g, root, d, was) && HeartsPlaced(d, heap) && LogPlaced(d, log) && Counted(g, d, was)
  }

  /** The image so far has room for the root and each object put. */
  ghost predicate Counted(g: Graph, d: Dump, was: seq<Word>) {
    |was| == 1 + Total(g, d.place.Keys, |g.mem|)
  }

  /** There is room for all objects that must be dumped, and no environment among them unless environments are dumped. */
  ghost predicate Ample(g: Graph, root: Word, words: set<Word>, room: nat, envs: bool) {
    && ClosedWords(g, root, words) && 1 + Total(g, Addresses(words), |g.mem|) <= room
    && (envs || forall w | w in words :: w.tag != TC_ENVIRONMENT)
  }

  lemma HasRoom(g: Graph, root: Word, d: Dump, was: seq<Word>, heap: seq<Word>, log: seq<Fixup>, words: set<Word>, w: Word,
                room: nat, envs: bool)
    requires Ample(g, root, words, room, envs) && InStep(g, root, d, was, heap, log)
    requires Met(was, w) && w.tag.IsPointer() && w.datum in g.blocks && w.datum !in d.place && w.datum < |g.mem|
    ensures |was| + g.blocks[w.datum].size <= room
  {
    hide Laid, ClosedWords, Met;
    RoomForNext(g, root, d, was, words, w, room);
  }

  lemma RoomMissing(g: Graph, root: Word, d: Dump, was: seq<Word>, heap: seq<Word>, log: seq<Fixup>, words: set<Word>,
                    w: Word, room: nat, envs: bool)
    requires InStep(g, root, d, was, heap, log) && Met(was, w) && w.tag.IsPointer()
    requires w.datum in g.blocks && w.datum !in d.place && w.datum < |g.mem| && |was| + g.blocks[w.datum].size > room
    ensures !Ample(g, root, words, room, envs)
  {
    hide Ample, InStep, Met;
    if Ample(g, root, words, room, envs) { HasRoom(g, root, d, was, heap, log, words, w, room, envs); }
  }

  lemma NoEnvironment(g: Graph, root: Word, d: Dump, was: seq<Word>, heap: seq<Word>, log: seq<Fixup>, words: set<Word>,
                      w: Word, room: nat, envs: bool)
    requires Ample(g, root, words, room, envs) && InStep(g, root, d, was, heap, log) && Met(was, w)
    ensures w.tag == TC_ENVIRONMENT ==> envs
  {
    hide Laid, ClosedWords, Parses;
    if w.tag == TC_ENVIRONMENT {
      var i :| 0 <= i < |was| && was[i] == w && Parses(was, 0, i);
      MetAmong(g, root, d, was, words, i);
    }
  }

  lemma HeartPlaced(g: Graph, d: Dump, was: seq<Word>, heap: seq<Word>, log: seq<Fixup>, t: Tag, a: nat, f: Fixup)
    requires HeartsPlaced(d, heap) && LogPlaced(d, log) && a !in d.place && a < |heap| && f.addr == a
    ensures HeartsPlaced(Put(g, d, was, t, a), heap[a := Word(BrokenHeart, d.start + |was|)])
    ensures LogPlaced(Put(g, d, was, t, a), log + [f])
  {
  }

  lemma InStepKeeps(g: Graph, root: Word, d: Dump, was: seq<Word>, heap: seq<Word>, log: seq<Fixup>, t: Tag, a: nat, f: Fixup)
    requires InStep(g, root, d, was, heap, log) && a !in d.place && a < |heap| && f.addr == a
    requires a in g.blocks && BlockOk(g, a) && Fits(t, g.blocks[a]) && Met(was, Word(t, a))
    ensures a + g.blocks[a].size <= |g.mem|
    ensures InStep(g, root, Put(g, d, was, t, a), was + CopyOf(g, t, a),
                   heap[a := Word(BrokenHeart, d.start + |was|)], log + [f])
  {
    assert a + g.blocks[a].size <= |g.mem|;
    assert 1 <= g.blocks[a].size;
    hide Laid, BlockOk, CopyOf, Met, Fits, Extends, Put, HeartsPlaced, LogPlaced;
    PutCounts(g, d, was, t, a);
    PutKeeps(g, root, d, was, t, a);
    HeartPlaced(g, d, was, heap, log, t, a, f);
  }

  /** An object has been put in the image exactly when it has been logged. */
  lemma PlacedWhenLogged(g: Graph, root: Word, d: Dump, was: seq<Word>, heap: seq<Word>, log: seq<Fixup>, a: nat)
    requires DumpGraph(g) && LogOk(g.mem, heap, log) && a in g.blocks && InStep(g, root, d, was, heap, log)
    requires AllInside(g, log)
    ensures a in d.place <==> Logged(log, a)
    ensures a in d.place ==> a < |heap| && heap[a] == Word(BrokenHeart, d.start + d.place[a])
  {
    ObjectIntact(g, heap, log, a);
    hide LogOk, DumpGraph, Laid, BlockOk, Counted;
  }

  lemma UnscannedCopy(g: Graph, t: Tag, to: seq<Word>, was: seq<Word>, scan: nat, a: nat)
    requires a in g.blocks && a + g.blocks[a].size <= |g.mem| && !IsSymbol(t)
    requires scan <= |to| == |was| && to[scan..] == was[scan..]
    ensures (to + BlockWords(g, a))[scan..] == (was + CopyOf(g, t, a))[scan..]
  {
    assert (to + BlockWords(g, a))[scan..] == to[scan..] + BlockWords(g, a);
    assert (was + CopyOf(g, t, a))[scan..] == was[scan..] + CopyOf(g, t, a);
  }

  lemma UnscannedSymbol(to: seq<Word>, was: seq<Word>, scan: nat, name: Word, value: Word)
    requires scan <= |to| == |was| && to[scan..] == was[scan..]
    ensures (to + [name, value])[scan..] == (was + [name, value])[scan..]
  {
    assert (to + [name, value])[scan..] == to[scan..] + [name, value];
    assert (was + [name, value])[scan..] == was[scan..] + [name, value];
  }

  class Fasdumper {
    const heap: array<Word>
    const tospace: array<Word>
    const newspaceStart: nat
    const envMode: EnvMode
    var tospaceNext: nat
    var fixups: array<Fixup>
    var fixupsNext: nat
    ghost var graph: Graph
    ghost var root: Word                // what is dumped
    ghost var was: seq<Word>            // the words put into tospace, before they were scanned
    ghost var dump: Dump
    ghost var words: set<Word>          // any words among which are all that must be met

    constructor (heap: array<Word>, tospace: array<Word>, newspaceStart: nat, envMode: EnvMode)
      requires heap != tospace
      ensures this.heap == heap && this.tospace == tospace && this.newspaceStart == newspaceStart && this.envMode == envMode
      ensures fresh(fixups)
    {
      this.heap, this.tospace, this.newspaceStart, this.envMode := heap, tospace, newspaceStart, envMode;
      tospaceNext, fixupsNext := 0, 0;
      fixups := new Fixup[0];
    }

    ghost function Log(): seq<Fixup>
      requires fixupsNext <= fixups.Length
      reads this, fixups
    {
      fixups[..fixupsNext]
    }

    ghost predicate Valid()
      reads this, heap, tospace, fixups
    {
      && heap != tospace && 0 < newspaceStart
      && tospaceNext <= tospace.Length && fixupsNext <= fixups.Length && 0 < fixups.Length
      && DumpGraph(graph) && AllDumpable(graph)
      && LogOk(graph.mem, heap[..], Log())
      && AllInside(graph, Log())
    }

    ghost predicate Imaged()
      reads this, heap, tospace, fixups
    {
      && fixupsNext <= fixups.Length && |was| == tospaceNext && dump.start == newspaceStart
      && dump.envs == (envMode == FeDump)
      && InStep(graph, root, dump, was, heap[..], Log())
    }

    /** The words from `scan` on are as they were put. */
    ghost predicate Unscanned(scan: nat)
      reads this, tospace
    {
      scan <= tospaceNext <= tospace.Length && |was| == tospaceNext && tospace[scan..tospaceNext] == was[scan..]
    }

    method InitializeFixups()
      modifies this`fixups, this`fixupsNext
      ensures fresh(fixups) && fixups.Length == INITIAL_FIXUPS && fixupsNext == 0
    {
      fixups := new Fixup[INITIAL_FIXUPS];
      fixupsNext := 0;
    }

    /** Logs the word at an address, doubling a full buffer. */
    method AddFixup(addr: nat)
      requires fixupsNext <= fixups.Length && 0 < fixups.Length && addr < heap.Length
      modifies this`fixups, this`fixupsNext, fixups
      ensures fixups == old(fixups) || fresh(fixups)
      ensures 0 < fixups.Length && fixupsNext <= fixups.Length
      ensures Log() == old(Log()) + [Fixup(addr, heap[addr])]
    {
      if fixupsNext >= fixups.Length {
        var data := new Fixup[fixups.Length * 2];
        var i := 0;
        while i < fixupsNext
          invariant i <= fixupsNext == fixups.Length < data.Length
          invariant data[..i] == fixups[..i]
          invariant fresh(data) && fixups == old(fixups) && fixups[..] == old(fixups[..]) && fixupsNext == old(fixupsNext)
        {
          data[i] := fixups[i];
          i := i + 1;
        }
        fixups := data;
      }
      fixups[fixupsNext] := Fixup(addr, heap[addr]);
      fixupsNext := fixupsNext + 1;
    }

    /** Puts the logged words back. */
    method RunFixups()
      requires fixupsNext <= fixups.Length
      requires forall i | 0 <= i < fixupsNext :: fixups[i].addr < heap.Length
      modifies heap
      ensures heap[..] == Replay(old(heap[..]), Log())
    {
      var scan := 0;
      while scan < fixupsNext
        invariant 0 <= scan <= fixupsNext
        invariant heap[..] == Replay(old(heap[..]), Log()[..scan])
      {
        assert Log()[..scan + 1][..scan] == Log()[..scan];
        heap[fixups[scan].addr] := fixups[scan].word;
        scan := scan + 1;
      }
      assert Log()[..fixupsNext] == Log();
    }

    method PrecheckFrom(from: nat) returns (addr: nat)
      requires Valid() && Imaged() && from in graph.blocks
      ensures from < heap.Length && (addr == 0 <==> !Logged(Log(), from))
      ensures addr == 0 ==> !IsHeart(heap[from]) && from !in dump.place
      ensures addr != 0 ==> heap[from] == Word(BrokenHeart, addr)
      ensures addr != 0 ==> from in dump.place && addr == newspaceStart + dump.place[from]
    {
      hide LogOk, DumpGraph, AllDumpable, BlockOk, WellFormed, Logged, OncePerAddress, InStep;
      ObjectIntact(graph, heap[..], Log(), from);
      PlacedWhenLogged(graph, root, dump, was, heap[..], Log(), from);
      addr := if heap[from].tag == BrokenHeart then heap[from].datum else 0;
    }

    /** The collector's copy of n words, with its broken heart. */
    method GcTransportWords(from: nat, n: nat) returns (newAddress: nat)
      requires heap != tospace && 1 <= n && from + n <= heap.Length && tospaceNext + n <= tospace.Length
      modifies this`tospaceNext, tospace, heap
      ensures newAddress == newspaceStart + old(tospaceNext) && tospaceNext == old(tospaceNext) + n
      ensures tospace[..tospaceNext] == old(tospace[..tospaceNext]) + old(heap[from..from + n])
      ensures heap[..] == old(heap[..])[from := Word(BrokenHeart, newAddress)]
    {
      newAddress := newspaceStart + tospaceNext;
      var scan := from;
      while scan < from + n
        invariant from <= scan <= from + n && tospaceNext == old(tospaceNext) + (scan - from)
        invariant heap[..] == old(heap[..])
        invariant tospace[..tospaceNext] == old(tospace[..tospaceNext]) + old(heap[..])[from..scan]
      {
        tospace[tospaceNext] := heap[scan];
        tospaceNext, scan := tospaceNext + 1, scan + 1;
      }
      assert old(heap[..])[from..scan] == old(heap[from..from + n]);
      heap[from] := Word(BrokenHeart, newAddress);
    }

    /** Copies n words, unless there is no room; logs the first before its broken heart replaces it. */
    method TransportWords(from: nat, n: nat, ghost scan: nat, ghost t: Tag) returns (ok: bool, newAddress: nat)
      requires Valid() && Imaged() && from in graph.blocks && from !in dump.place && n == graph.blocks[from].size
      requires !Logged(Log(), from) && Scannable(graph, tospace[..tospaceNext], scan)
      requires Fits(t, graph.blocks[from]) && Met(was, Word(t, from))
      modifies this`tospaceNext, this`fixups, this`fixupsNext, this`was, this`dump, tospace, heap, fixups
      ensures Valid() && (fixups == old(fixups) || fresh(fixups))
      ensures ok <==> old(tospaceNext) + n <= tospace.Length
      ensures !ok ==> tospaceNext == old(tospaceNext) && tospace[..] == old(tospace[..])
      ensures ok ==>
                && newAddress == newspaceStart + old(tospaceNext) && tospaceNext == old(tospaceNext) + n
                && from + n <= |graph.mem| && n > 0
                && tospace[..tospaceNext] == old(tospace[..tospaceNext]) + BlockWords(graph, from)
                && Scannable(graph, tospace[..tospaceNext], scan)
                && Logged(Log(), from)
                && Log() == old(Log()) + [Fixup(from, old(heap[from]))]
                && heap[..] == old(heap[..])[from := Word(BrokenHeart, newAddress)]
      ensures ok ==>
                && from + n <= |graph.mem| && Imaged()
                && was == old(was) + CopyOf(graph, t, from) && dump == Put(graph, old(dump), old(was), t, from)
      ensures ok && !IsSymbol(t) && old(Unscanned(scan)) ==> Unscanned(scan)
      ensures HeartsStay(old(heap[..]), heap[..]) && old(Log()) <= Log()
    {
      hide AllInside, LogOk, DumpGraph, AllDumpable, Dumpable, Scannable, BlockOk, WellFormed, InStep, Met, CopyOf,
           Put, Fits,
           Logged, HeartsStay, IsSymbol;
      ObjectIntact(graph, heap[..], Log(), from);
      BlockSize(graph, from);
      HeartsReflexive(heap[..]);
      if tospace.Length - tospaceNext < n {
        return false, 0;
      }
      ghost var t0, h, log := tospace[..tospaceNext], heap[..], Log();
      if scan <= |t0| { assert t0[scan..] == tospace[scan..tospaceNext]; }
      AddFixup(from);
      newAddress := GcTransportWords(from, n);
      LogGrows(graph.mem, h, log, from, newAddress);
      PutExtends(graph, dump, was, t, from);
      NewHeart(h, from, Word(BrokenHeart, newAddress));
      BlockScannable(graph, from);
      ScannableAppend(graph, t0, scan, BlockWords(graph, from));
      assert Log()[|log|].addr == from;
      AddedInside(graph, log, Log(), from);
      InStepKeeps(graph, root, dump, was, h, log, t, from, Fixup(from, h[from]));
      if !IsSymbol(t) && scan <= |t0| && t0[scan..] == was[scan..] {
        UnscannedCopy(graph, t, t0, was, scan, from);
        assert tospace[..tospaceNext][scan..] == tospace[scan..tospaceNext];
      }
      was, dump := was + CopyOf(graph, t, from), Put(graph, dump, was, t, from);
      ok := true;
    }

    /** Copies the rest of a list right behind its first pair: each copied pair has its tail right behind it or before. */
    method TransportCdrs(newAddress: nat, ghost from: nat, ghost scan: nat) returns (ok: bool)
      requires Valid() && Imaged() && Unscanned(scan) && Scannable(graph, tospace[..tospaceNext], scan)
      requires LastPut(graph, dump, was, from) && TailsNear(graph, dump, {from})
      requires newAddress == newspaceStart + dump.place[from] && newAddress - newspaceStart + 2 <= tospaceNext
      requires var cdr := tospace[newAddress - newspaceStart + 1];
        cdr == graph.mem[from + 1] && Dumpable(graph, cdr) && Met(was, cdr)
      modifies this`tospaceNext, this`fixups, this`fixupsNext, this`was, this`dump, tospace, heap, fixups
      ensures Ample(graph, root, words, tospace.Length, envMode == FeDump) ==> ok
      ensures Valid() && (fixups == old(fixups) || fresh(fixups))
      ensures old(tospaceNext) <= tospaceNext && old(tospace[..tospaceNext]) <= tospace[..tospaceNext]
      ensures HeartsStay(old(heap[..]), heap[..]) && old(Log()) <= Log()
      ensures ok ==> Scannable(graph, tospace[..tospaceNext], scan)
      ensures ok ==> Imaged() && Unscanned(scan) && old(was) <= was && Extends(old(dump), dump)
      ensures ok ==> TailsNear(graph, dump, {})
    {
      hide Ample, AllInside, LogOk, DumpGraph, AllDumpable, Scannable, Dumpable, BlockOk, Logged, TailsNear, HeartsStay,
           InStep, Met, CopyOf, Extends, Put;
      var cdr := tospace[newAddress - newspaceStart + 1];
      ghost var last: nat := from;
      ExtendsSelf(dump);
      HeartsReflexive(heap[..]);
      while cdr.tag == TC_LIST
        invariant Valid() && Scannable(graph, tospace[..tospaceNext], scan) && Dumpable(graph, cdr) && Met(was, cdr)
        invariant Imaged() && Unscanned(scan) && old(was) <= was && Extends(old(dump), dump)
        invariant fixups == old(fixups) || fresh(fixups)
        invariant old(tospaceNext) <= tospaceNext && old(tospace[..tospaceNext]) <= tospace[..tospaceNext]
        invariant HeartsStay(old(heap[..]), heap[..]) && old(Log()) <= Log()
        invariant LastPut(graph, dump, was, last) && TailsNear(graph, dump, {last}) && cdr == graph.mem[last + 1]
        decreases cdr.tag == TC_LIST, tospace.Length - tospaceNext
      {
        PointerTo(graph, cdr);
        var next := PrecheckFrom(cdr.datum);
        if next != 0 {
          break;
        }
        ghost var a, h, log := cdr.datum, heap[..], Log();
        var tail;
        ghost var d, was0 := dump, was;
        BlockCdr(graph, a);
        TailMet(graph, root, d, was0, h, log, TC_LIST, a);
        ok, tail := TransportWords(cdr.datum, 2, scan, TC_LIST);
        if !ok {
          RoomMissing(graph, root, d, was0, h, log, words, cdr, tospace.Length, envMode == FeDump);
          HeartsStayTrans(old(heap[..]), h, heap[..]);
          return false;
        }
        NextPending(graph, d, was0, last, a);
        last := a;
        cdr := tospace[tail - newspaceStart + 1];
        assert cdr == BlockWords(graph, a)[1];
        PutExtends(graph, d, was0, TC_LIST, a);
        ExtendsTrans(old(dump), d, dump);
        HeartsStayTrans(old(heap[..]), h, heap[..]);
      }
      TailsDone(graph, root, dump, was, heap[..], Log(), last);
      ok := true;
    }

    /** Copies n words that were not copied yet, and with a pair the rest of its list. */
    method TransportTuple(w: Word, n: nat, ghost scan: nat) returns (ok: bool, newAddress: nat)
      requires Valid() && Imaged() && Unscanned(scan) && Scannable(graph, tospace[..tospaceNext], scan)
      requires Dumpable(graph, w) && ((w.tag.Tuple? && w.tag.words == n) || (w.tag.WeakCons? && n == 2))
      requires Met(was, w) && !IsSymbol(w.tag) && w.datum !in dump.place && !Logged(Log(), w.datum)
      requires TailsNear(graph, dump, {})
      modifies this`tospaceNext, this`fixups, this`fixupsNext, this`was, this`dump, tospace, heap, fixups
      ensures Ample(graph, root, words, tospace.Length, envMode == FeDump) ==> ok
      ensures Valid() && (fixups == old(fixups) || fresh(fixups))
      ensures old(tospaceNext) <= tospaceNext && old(tospace[..tospaceNext]) <= tospace[..tospaceNext]
      ensures HeartsStay(old(heap[..]), heap[..]) && old(Log()) <= Log()
      ensures ok ==> Scannable(graph, tospace[..tospaceNext], scan)
      ensures ok ==> Imaged() && Unscanned(scan) && old(was) <= was && Extends(old(dump), dump)
      ensures ok ==> w.datum in dump.place && newAddress == newspaceStart + dump.place[w.datum]
      ensures ok ==> PutNext(graph, old(tospace[..tospaceNext]), tospace[..tospaceNext], w.datum)
      ensures ok ==> TailsNear(graph, dump, {})
    {
      hide Ample, TailsNear, AllInside, Unscanned, LogOk, DumpGraph, AllDumpable, Scannable, Dumpable, BlockOk,
           Logged, HeartsStay, PutNext, InStep, Met, CopyOf, Extends, Put;
      PointerTo(graph, w);
      if n == 2 {
        BlockCdr(graph, w.datum);
        assert BlockWords(graph, w.datum)[0] == graph.mem[w.datum];
        TailMet(graph, root, dump, was, heap[..], Log(), w.tag, w.datum);
      }
      ghost var d, was0, to0 := dump, was, tospace[..tospaceNext];
      ghost var h0, log0 := heap[..], Log();
      ok, newAddress := TransportWords(w.datum, n, scan, w.tag);
      if !ok {
        RoomMissing(graph, root, d, was0, h0, log0, words, w, tospace.Length, envMode == FeDump);
        return;
      }
      PutExtends(graph, d, was0, w.tag, w.datum);
      FirstPending(graph, d, was0, w.tag, w.datum);
      NextPut(graph, to0, tospace[..tospaceNext], w.datum);
      if n == 2 {
        ghost var h, to, d1 := heap[..], tospace[..tospaceNext], dump;
        assert to[newAddress - newspaceStart + 1] == BlockWords(graph, w.datum)[1];
        ok := TransportCdrs(newAddress, w.datum, scan);
        HeartsStayTrans(old(heap[..]), h, heap[..]);
        if !ok {
          return;
        }
        ExtendsTrans(d, d1, dump);
        ExtendsPlace(d1, dump, w.datum);
        PutNextStays(graph, to0, to, tospace[..tospaceNext], w.datum);
      }
    }

    /** Handles a pointer to n words; weak pairs are dumped as pairs. */
    method HandleTuple(w: Word, n: nat, ghost scan: nat) returns (ok: bool, r: Word)
      requires Valid() && Imaged() && Unscanned(scan) && Scannable(graph, tospace[..tospaceNext], scan)
      requires Dumpable(graph, w) && ((w.tag.Tuple? && w.tag.words == n) || (w.tag.WeakCons? && n == 2))
      requires Met(was, w) && !IsSymbol(w.tag)
      requires TailsNear(graph, dump, {})
      modifies this`tospaceNext, this`fixups, this`fixupsNext, this`was, this`dump, tospace, heap, fixups
      ensures Ample(graph, root, words, tospace.Length, envMode == FeDump) ==> ok
      ensures Valid() && (fixups == old(fixups) || fresh(fixups))
      ensures old(tospaceNext) <= tospaceNext && old(tospace[..tospaceNext]) <= tospace[..tospaceNext]
      ensures HeartsStay(old(heap[..]), heap[..]) && old(Log()) <= Log()
      ensures ok ==> Scannable(graph, tospace[..tospaceNext], scan)
      ensures ok ==> Imaged() && Unscanned(scan) && old(was) <= was && Extends(old(dump), dump)
      ensures ok ==> Forwards(heap[..], w, r) && w.datum in graph.blocks && ForwardedTo(dump, w, r)
      ensures ok && !old(Logged(Log(), w.datum)) ==>
                PutNext(graph, old(tospace[..tospaceNext]), tospace[..tospaceNext], w.datum)
      ensures ok ==> TailsNear(graph, dump, {})
    {
      hide TailsNear, Ample, AllInside, Forwards, ForwardedTo, Unscanned, LogOk, DumpGraph, AllDumpable, Scannable,
           Dumpable, BlockOk, Logged, HeartsStay, PutNext, InStep, Met, CopyOf, Extends, Put;
      PointerTo(graph, w);
      ExtendsSelf(dump);
      HeartsReflexive(heap[..]);
      var newAddress := PrecheckFrom(w.datum);
      if newAddress == 0 {
        ok, newAddress := TransportTuple(w, n, scan);
        if !ok {
          return false, w;
        }
      }
      PlacedForwards(graph, root, dump, was, heap[..], Log(), w);
      return true, Word(w.tag, newAddress);
    }

    method HandleVector(w: Word, ghost scan: nat) returns (ok: bool, r: Word)
      requires Valid() && Imaged() && Unscanned(scan) && Scannable(graph, tospace[..tospaceNext], scan)
      requires Dumpable(graph, w) && (w.tag.Vector? || w.tag.Ephemeron?) && Met(was, w)
      requires w.tag == TC_ENVIRONMENT ==> envMode == FeDump
      requires TailsNear(graph, dump, {})
      modifies this`tospaceNext, this`fixups, this`fixupsNext, this`was, this`dump, tospace, heap, fixups
      ensures Ample(graph, root, words, tospace.Length, envMode == FeDump) ==> ok
      ensures Valid() && (fixups == old(fixups) || fresh(fixups))
      ensures old(tospaceNext) <= tospaceNext && old(tospace[..tospaceNext]) <= tospace[..tospaceNext]
      ensures HeartsStay(old(heap[..]), heap[..]) && old(Log()) <= Log()
      ensures ok ==> Scannable(graph, tospace[..tospaceNext], scan)
      ensures ok ==> Imaged() && Unscanned(scan) && old(was) <= was && Extends(old(dump), dump)
      ensures ok ==> Forwards(heap[..], w, r) && w.datum in graph.blocks && ForwardedTo(dump, w, r)
      ensures ok && !old(Logged(Log(), w.datum)) ==>
                PutNext(graph, old(tospace[..tospaceNext]), tospace[..tospaceNext], w.datum)
      ensures ok ==> TailsNear(graph, dump, {})
    {
      hide TailsNear, Ample, AllInside, Forwards, ForwardedTo, Unscanned, LogOk, DumpGraph, AllDumpable, Scannable,
           Dumpable, BlockOk, Logged, HeartsStay, PutNext, InStep, Met, CopyOf, Extends, Put;
      PointerTo(graph, w);
      ExtendsSelf(dump);
      HeartsReflexive(heap[..]);
      var newAddress := PrecheckFrom(w.datum);
      if newAddress == 0 {
        ObjectIntact(graph, heap[..], Log(), w.datum);
        VectorHeader(graph, w);
        assert heap[w.datum] == heap[..][w.datum..w.datum + graph.blocks[w.datum].size][0];
        ghost var h0, log0 := heap[..], Log();
        ok, newAddress := TransportWords(w.datum, 1 + heap[w.datum].datum, scan, w.tag);
        if !ok {
          RoomMissing(graph, root, old(dump), old(was), h0, log0, words, w, tospace.Length, envMode == FeDump);
          return false, w;
        }
        PutExtends(graph, old(dump), old(was), w.tag, w.datum);
        FirstPending(graph, old(dump), old(was), w.tag, w.datum);
        NextPut(graph, old(tospace[..tospaceNext]), tospace[..tospaceNext], w.datum);
      }
      PlacedForwards(graph, root, dump, was, heap[..], Log(), w);
      return true, Word(w.tag, newAddress);
    }

    /** Copies a symbol that was not copied yet, and replaces the copy's value. */
    method TransportSymbol(w: Word, ghost scan: nat) returns (ok: bool, newAddress: nat)
      requires Valid() && Imaged() && Unscanned(scan) && Scannable(graph, tospace[..tospaceNext], scan)
      requires Dumpable(graph, w) && IsSymbol(w.tag) && Met(was, w) && w.datum !in dump.place && !Logged(Log(), w.datum)
      requires TailsNear(graph, dump, {})
      modifies this`tospaceNext, this`fixups, this`fixupsNext, this`was, this`dump, tospace, heap, fixups
      ensures Ample(graph, root, words, tospace.Length, envMode == FeDump) ==> ok
      ensures Valid() && (fixups == old(fixups) || fresh(fixups))
      ensures old(tospaceNext) <= tospaceNext
      ensures HeartsStay(old(heap[..]), heap[..]) && old(Log()) <= Log()
      ensures ok ==> Scannable(graph, tospace[..tospaceNext], scan)
      ensures ok ==> Imaged() && Unscanned(scan) && old(was) <= was && Extends(old(dump), dump)
      ensures ok ==> w.datum in dump.place && newAddress == newspaceStart + dump.place[w.datum]
      ensures w.datum < |graph.mem|
      ensures tospace[..tospaceNext] == old(tospace[..tospaceNext]) + if ok then [graph.mem[w.datum], SymbolValue(w.tag)] else []
      ensures ok ==> TailsNear(graph, dump, {})
    {
      hide TailsNear, Ample, AllInside, LogOk, DumpGraph, AllDumpable, Scannable, Dumpable, BlockOk, Logged,
           HeartsStay, InStep, Met, CopyOf, Extends, Put;
      PointerTo(graph, w);
      BlockCdr(graph, w.datum);
      ghost var d, was0, t0 := dump, was, tospace[..tospaceNext];
      assert t0[scan..] == tospace[scan..tospaceNext];
      ghost var h0, log0 := heap[..], Log();
      ok, newAddress := TransportWords(w.datum, 2, scan, w.tag);
      if !ok {
        RoomMissing(graph, root, d, was0, h0, log0, words, w, tospace.Length, envMode == FeDump);
        return;
      }
      PutExtends(graph, d, was0, w.tag, w.datum);
      FirstPending(graph, d, was0, w.tag, w.datum);
      ghost var name := BlockWords(graph, w.datum)[0];
      var value := if w.tag == TC_INTERNED_SYMBOL then BROKEN_HEART_ZERO else UNBOUND_OBJECT;
      SymbolCopy(graph, w.tag, w.datum);
      ValueDumpable(graph, value);
      SymbolScannable(graph, t0, scan, BlockWords(graph, w.datum), value);
      tospace[newAddress - newspaceStart + SYMBOL_GLOBAL_VALUE] := value;
      assert tospace[..tospaceNext] == t0 + [name, value];
      UnscannedSymbol(t0, was0, scan, name, value);
      assert tospace[scan..tospaceNext] == tospace[..tospaceNext][scan..];
    }

    /** A symbol's copy has the symbol's name and no value. */
    method HandleSymbol(w: Word, ghost scan: nat) returns (ok: bool, r: Word)
      requires Valid() && Imaged() && Unscanned(scan) && Scannable(graph, tospace[..tospaceNext], scan)
      requires Dumpable(graph, w) && IsSymbol(w.tag) && Met(was, w)
      requires TailsNear(graph, dump, {})
      modifies this`tospaceNext, this`fixups, this`fixupsNext, this`was, this`dump, tospace, heap, fixups
      ensures Ample(graph, root, words, tospace.Length, envMode == FeDump) ==> ok
      ensures Valid() && (fixups == old(fixups) || fresh(fixups))
      ensures old(tospaceNext) <= tospaceNext && old(tospace[..tospaceNext]) <= tospace[..tospaceNext]
      ensures HeartsStay(old(heap[..]), heap[..]) && old(Log()) <= Log()
      ensures ok ==> Scannable(graph, tospace[..tospaceNext], scan)
      ensures ok ==> Imaged() && Unscanned(scan) && old(was) <= was && Extends(old(dump), dump)
      ensures ok ==> Forwards(heap[..], w, r) && w.datum < |graph.mem| && ForwardedTo(dump, w, r)
      ensures ok && !old(Logged(Log(), w.datum)) ==>
                tospace[..tospaceNext] == old(tospace[..tospaceNext])
                  + [graph.mem[w.datum], SymbolValue(w.tag)]
      ensures ok ==> TailsNear(graph, dump, {})
    {
      hide TailsNear, Ample, AllInside, Forwards, ForwardedTo, Unscanned, LogOk, DumpGraph, AllDumpable, Scannable,
           Dumpable, BlockOk, Logged, HeartsStay, InStep, Met, CopyOf, Extends, Put;
      PointerTo(graph, w);
      ExtendsSelf(dump);
      HeartsReflexive(heap[..]);
      var newAddress := PrecheckFrom(w.datum);
      if newAddress == 0 {
        ok, newAddress := TransportSymbol(w, scan);
        if !ok {
          return false, w;
        }
      }
      PlacedForwards(graph, root, dump, was, heap[..], Log(), w);
      return true, Word(w.tag, newAddress);
    }

    /** The dump's handler for each type code, for words other than manifests. */
    method HandleObject(w: Word, ghost scan: nat) returns (ok: bool, r: Word)
      requires Valid() && Imaged() && Unscanned(scan) && Scannable(graph, tospace[..tospaceNext], scan) && Dumpable(graph, w)
      requires Met(was, w)
      requires TailsNear(graph, dump, {})
      modifies this`tospaceNext, this`fixups, this`fixupsNext, this`was, this`dump, tospace, heap, fixups
      ensures Ample(graph, root, words, tospace.Length, envMode == FeDump) ==> ok
      ensures Valid() && (fixups == old(fixups) || fresh(fixups))
      ensures old(tospaceNext) <= tospaceNext && old(tospace[..tospaceNext]) <= tospace[..tospaceNext]
      ensures HeartsStay(old(heap[..]), heap[..]) && old(Log()) <= Log()
      ensures ok ==> Scannable(graph, tospace[..tospaceNext], scan)
      ensures ok ==> Imaged() && Unscanned(scan) && old(was) <= was && Extends(old(dump), dump)
      ensures ok ==> Forwards(heap[..], w, r) && ForwardedTo(dump, w, r)
      ensures w.tag == TC_ENVIRONMENT && envMode != FeDump ==> !ok && heap[..] == old(heap[..])
      ensures ok ==> TailsNear(graph, dump, {})
    {
      hide TailsNear, Ample, AllInside, LogOk, DumpGraph, AllDumpable, Scannable, BlockOk, Logged, HeartsStay,
           PutNext, Good, InStep, Met, Extends;
      HeartsReflexive(heap[..]);
      ExtendsSelf(dump);
      if w.tag == TC_INTERNED_SYMBOL || w.tag == TC_UNINTERNED_SYMBOL {
        ok, r := HandleSymbol(w, scan);
      } else if w.tag == TC_ENVIRONMENT && envMode != FeDump {
        if Ample(graph, root, words, tospace.Length, false) {
          NoEnvironment(graph, root, dump, was, heap[..], Log(), words, w, tospace.Length, false);
        }
        ok, r := false, w;
      } else {
        NoManifest(graph, w);
        match w.tag
        case Tuple(n, _) => ok, r := HandleTuple(w, n, scan);
        case WeakCons => ok, r := HandleTuple(w, 2, scan);
        case Vector(_) => ok, r := HandleVector(w, scan);
        case Ephemeron => ok, r := HandleVector(w, scan);
        case Immediate(_) => ok, r := true, w;
        case BrokenHeart => ok, r := true, w;
      }
    }

    /** Replaces the word at the scan pointer by what stands for it in the image. */
    method ScanWord(index: nat) returns (ok: bool)
      requires Valid() && Imaged() && Unscanned(index) && Scannable(graph, tospace[..tospaceNext], index)
      requires ScannedAs(dump, was, tospace[..tospaceNext], 0, index)
      requires index < tospaceNext && tospace[index].tag != ManifestNM
      requires TailsNear(graph, dump, {})
      modifies this`tospaceNext, this`fixups, this`fixupsNext, this`was, this`dump, tospace, heap, fixups
      ensures Ample(graph, root, words, tospace.Length, envMode == FeDump) ==> ok
      ensures Valid() && (fixups == old(fixups) || fresh(fixups)) && HeartsStay(old(heap[..]), heap[..])
      ensures old(tospaceNext) <= tospaceNext
      ensures ok ==> Imaged() && Unscanned(index + 1) && Scannable(graph, tospace[..tospaceNext], index + 1)
      ensures ok ==> ScannedAs(dump, was, tospace[..tospaceNext], 0, index + 1)
      ensures ok ==> TailsNear(graph, dump, {})
    {
      hide TailsNear, Ample, AllInside, LogOk, DumpGraph, AllDumpable, Scannable, Dumpable, BlockOk, Logged,
           HeartsStay, Forwards, InStep, Met, Extends, ScannedAs, ForwardedTo;
      ghost var to, d, was0 := tospace[..tospaceNext], dump, was;
      ScannableWord(graph, to, index);
      UnscannedWord(to, was, index);
      ScanMeets(d, was, to, index);
      UnscannedFrom(to, was, index, index + 1);
      var r;
      ok, r := HandleObject(tospace[index], index + 1);
      if !ok {
        return;
      }
      ghost var to' := tospace[..tospaceNext];
      tospace[index] := r;
      ghost var to'' := tospace[..tospaceNext];
      assert to''[index + 1..] == to'[index + 1..];
      ScannableBehind(graph, to', to'', index + 1);
      ScannedStays(d, was0, to, dump, was, to'', 0, index);
      ScannedWord(dump, was, to'', index);
    }

    /** Scans tospace from `scan`; not ok means the dump was aborted. */
    method GcScanTospace(scan: nat) returns (ok: bool)
      requires Valid() && Imaged() && Unscanned(scan) && Scannable(graph, tospace[..tospaceNext], scan)
      requires ScannedAs(dump, was, tospace[..tospaceNext], 0, scan)
      requires TailsNear(graph, dump, {})
      modifies this`tospaceNext, this`fixups, this`fixupsNext, this`was, this`dump, tospace, heap, fixups
      ensures Ample(graph, root, words, tospace.Length, envMode == FeDump) ==> ok
      ensures Valid() && HeartsStay(old(heap[..]), heap[..])
      ensures ok ==> Imaged() && ScannedAs(dump, was, tospace[..tospaceNext], 0, |was|)
      ensures ok ==> TailsNear(graph, dump, {})
    {
      hide TailsNear, Ample, AllInside, LogOk, DumpGraph, AllDumpable, Scannable, Dumpable, BlockOk, Logged,
           HeartsStay, InStep, Extends, ScannedAs;
      HeartsReflexive(heap[..]);
      var index := scan;
      while index < tospaceNext
        invariant Valid() && Scannable(graph, tospace[..tospaceNext], index)
        invariant Imaged() && Unscanned(index) && ScannedAs(dump, was, tospace[..tospaceNext], 0, index)
        invariant fixups == old(fixups) || fresh(fixups)
        invariant HeartsStay(old(heap[..]), heap[..]) && TailsNear(graph, dump, {})
        decreases tospace.Length - index
      {
        ghost var to, h := tospace[..tospaceNext], heap[..];
        var word := tospace[index];
        if word.tag == ManifestNM {
          ScannableWord(graph, to, index);
          UnscannedWord(to, was, index);
          ScannableBound(graph, to, index + 1 + word.datum);
          ScannedSkip(dump, was, to, index);
          UnscannedFrom(to, was, index, index + 1 + word.datum);
          index := index + 1 + word.datum;
        } else {
          ok := ScanWord(index);
          HeartsStayTrans(old(heap[..]), h, heap[..]);
          if !ok {
            return;
          }
          index := index + 1;
        }
        ScannableBound(graph, tospace[..tospaceNext], index);
      }
      ok := true;
    }

    /**
     A dump of one object: whether it finishes or is aborted, memory is as it was; when it finishes, tospace is the
     image of the object. It finishes unless an environment that must not be dumped, or more objects than there is
     room for, are among what the object reaches: among any words that hold all words the dump must meet.
     */
    method PrimitiveFasdump(object_: Word, ghost g: Graph, ghost reached: set<Word>) returns (ok: bool)
      requires heap != tospace && 0 < newspaceStart && 1 <= tospace.Length
      requires DumpGraph(g) && AllDumpable(g) && g.mem == heap[..] && Dumpable(g, object_)
      modifies this, tospace, heap
      ensures heap[..] == old(heap[..])
      ensures ok ==> tospaceNext <= tospace.Length && dump.start == newspaceStart && dump.envs == (envMode == FeDump)
      ensures ok ==> ImageOf(g, object_, dump, tospace[..tospaceNext])
      ensures ok ==> tospaceNext == 1 + Total(g, dump.place.Keys, |g.mem|) && TailsNear(g, dump, {})
      ensures Ample(g, object_, reached, tospace.Length, envMode == FeDump) ==> ok
    {
      hide Ample, TailsNear, DumpGraph, AllDumpable, Dumpable, Scannable, Laid, ImageOf, ScannedAs, ClosedWords,
           Total, Addresses, LogOk, InStep;
      StartDump(object_, g, reached);
      ok := GcScanTospace(0);
      ghost var h := heap[..];
      if ok { MakeImage(g, object_, dump, was, tospace[..tospaceNext], h, Log()); }
      LogInside(g.mem, h, Log());
      RunFixups();
      ReplayRestores(g.mem, h, Log());
    }

    /** Puts the object in an empty tospace. */
    method StartDump(object_: Word, ghost g: Graph, ghost reached: set<Word>)
      requires heap != tospace && 0 < newspaceStart && 1 <= tospace.Length
      requires DumpGraph(g) && AllDumpable(g) && g.mem == heap[..] && Dumpable(g, object_)
      modifies this, tospace
      ensures graph == g && root == object_ && words == reached && !object_.tag.ManifestNM?
      ensures Valid() && fresh(fixups) && Imaged() && Unscanned(0) && Scannable(g, tospace[..tospaceNext], 0)
      ensures ScannedAs(dump, was, tospace[..tospaceNext], 0, 0) && TailsNear(g, dump, {})
    {
      hide TailsNear, DumpGraph, AllDumpable, Dumpable, Scannable, Laid, ScannedAs, Total;
      graph, words := g, reached;
      tospaceNext := 0;
      InitializeFixups();
      tospace[0] := object_;
      tospaceNext := 1;
      assert tospace[..1] == [object_];
      AllWordsScannable(g, [object_], 0);
      root, was, dump := object_, [object_], Dump(newspaceStart, envMode == FeDump, map[], map[]);
      NoManifest(g, object_);
      FirstLaid(g, object_, newspaceStart, envMode == FeDump);
      assert dump.place.Keys == {};
      TotalNone(g, |g.mem|);
      NothingScanned(dump, [object_]);
      NoneNear(g, newspaceStart, envMode == FeDump);
    }
  }

  lemma MakeImage(g: Graph, root: Word, d: Dump, was: seq<Word>, to: seq<Word>, heap: seq<Word>, log: seq<Fixup>)
    requires InStep(g, root, d, was, heap, log) && ScannedAs(d, was, to, 0, |was|) && !root.tag.ManifestNM?
    ensures ImageOf(g, root, d, to) && |was| == 1 + Total(g, d.place.Keys, |g.mem|)
  {
    hide Laid, ScannedAs, ImageOf;
    ImageMade(g, root, d, was, to);
  }

  lemma LogInside(mem: seq<Word>, heap: seq<Word>, log: seq<Fixup>)
    requires LogOk(mem, heap, log)
    ensures |heap| == |mem| && forall i | 0 <= i < |log| :: log[i].addr < |heap|
  {
  }

  /**
   When a dump must finish: some set of words holds the root, and with a pointer all slots of its object but raw data
   and a symbol's value; it has no environment, unless environments are dumped; and tospace has room for all of memory,
   or for the objects that the words point to.
   */
  lemma AmpleWhen(g: Graph, root: Word, words: set<Word>, room: nat, envs: bool)
    requires DumpGraph(g) && root in words
    requires forall w, y: nat | w in words && w.tag.IsPointer() && w.datum in g.blocks && y < |g.mem|
                                && w.datum <= y < w.datum + g.blocks[w.datum].size && !g.blocks[w.datum].kind.RawKind?
                                && !(w.tag in {Tuple(2, 0x1D), Tuple(2, 0x05)} && y == w.datum + 1) ::
               g.mem[y] in words
    requires envs || forall w | w in words :: w.tag != Vector(0x12)
    requires 1 + |g.mem| <= room || 1 + Total(g, Addresses(words), |g.mem|) <= room
    ensures Ample(g, root, words, room, envs)
  {
    assert forall a | a in g.blocks :: BlockOk(g, a);
    TotalFits(g, Addresses(words), |g.mem|, |g.mem|);
    assert ClosedWords(g, root, words);
  }

  // ----- small facts for the handlers -----

  lemma TailsDone(g: Graph, root: Word, d: Dump, was: seq<Word>, heap: seq<Word>, log: seq<Fixup>, last: nat)
    requires InStep(g, root, d, was, heap, log) && TailsNear(g, d, {last}) && LastPut(g, d, was, last)
    requires g.mem[last + 1].tag == TC_LIST ==> g.mem[last + 1].datum in d.place
    ensures TailsNear(g, d, {})
  {
    hide Laid, TailsNear;
    NothingPending(g, root, d, was, last);
  }

  lemma ExtendsSelf(d: Dump)
    ensures Extends(d, d)
  {
  }

  lemma ExtendsTrans(d: Dump, d': Dump, d'': Dump)
    requires Extends(d, d') && (Extends(d', d'') || d'' == d')
    ensures Extends(d, d'')
  {
  }

  lemma ExtendsPlace(d: Dump, d': Dump, a: nat)
    requires Extends(d, d') && a in d.place
    ensures a in d'.place && d'.place[a] == d.place[a] && d'.start == d.start
  {
  }

  lemma PutExtends(g: Graph, d: Dump, was: seq<Word>, t: Tag, a: nat)
    requires a !in d.place
    ensures Extends(d, Put(g, d, was, t, a)) && Put(g, d, was, t, a).start == d.start
    ensures Put(g, d, was, t, a).envs == d.envs
    ensures a in Put(g, d, was, t, a).place && Put(g, d, was, t, a).place[a] == |was|
  {
  }

  lemma SymbolCopy(g: Graph, t: Tag, a: nat)
    requires a in g.blocks && g.blocks[a].size == 2 && a + 2 <= |g.mem| && IsSymbol(t)
    ensures CopyOf(g, t, a) == [BlockWords(g, a)[0], SymbolValue(t)]
  {
  }

  /** The second word of a pair that was just put is met by the scan. */
  lemma TailMet(g: Graph, root: Word, d: Dump, was: seq<Word>, heap: seq<Word>, log: seq<Fixup>, t: Tag, a: nat)
    requires InStep(g, root, d, was, heap, log) && a in g.blocks && g.blocks[a].size == 2 && a + 2 <= |g.mem|
    requires !IsSymbol(t) && !g.mem[a].tag.ManifestNM?
    ensures Met(was + CopyOf(g, t, a), g.mem[a + 1])
  {
    var s := was + CopyOf(g, t, a);
    ParsesLonger(was, CopyOf(g, t, a), 0, |was|);
    assert s[|was|] == g.mem[a] && s[|was| + 1] == g.mem[a + 1];
    assert Parses(s, |was|, |was| + 1);
    ParsesJoin(s, 0, |was|, |was| + 1);
  }

  lemma UnscannedWord(to: seq<Word>, was: seq<Word>, i: nat)
    requires i < |to| == |was| && to[i..] == was[i..]
    ensures to[i] == was[i]
  {
    assert to[i] == to[i..][0] && was[i] == was[i..][0];
  }

  lemma UnscannedFrom(to: seq<Word>, was: seq<Word>, i: nat, k: nat)
    requires i <= k <= |to| == |was| && to[i..] == was[i..]
    ensures to[k..] == was[k..]
  {
    assert to[k..] == to[i..][k - i..] && was[k..] == was[i..][k - i..];
  }

  /** The next word to scan is one that the scan meets. */
  lemma ScanMeets(d: Dump, was: seq<Word>, to: seq<Word>, i: nat)
    requires ScannedAs(d, was, to, 0, i) && i < |was|
    ensures Met(was, was[i])
  {
    ScannedParses(d, was, to, 0, i);
  }

  lemma NothingScanned(d: Dump, was: seq<Word>)
    ensures ScannedAs(d, was, was, 0, 0)
  {
  }

  /** The object's words were put right behind what was there. */
  ghost predicate PutNext(g: Graph, to: seq<Word>, to': seq<Word>, a: nat) {
    a in g.blocks && a + g.blocks[a].size <= |g.mem| && to + BlockWords(g, a) <= to'
  }

  lemma NextPut(g: Graph, to: seq<Word>, to': seq<Word>, a: nat)
    requires a in g.blocks && a + g.blocks[a].size <= |g.mem| && to' == to + BlockWords(g, a)
    ensures PutNext(g, to, to', a)
  {
  }

  lemma PutNextStays(g: Graph, to: seq<Word>, to1: seq<Word>, to2: seq<Word>, a: nat)
    requires PutNext(g, to, to1, a) && to1 <= to2
    ensures PutNext(g, to, to2, a)
  {
  }

  lemma HeartsReflexive(h: seq<Word>)
    ensures HeartsStay(h, h)
  {
  }

  /** A pointer to an object that has been put is forwarded to where it was put. */
  lemma PlacedForwards(g: Graph, root: Word, d: Dump, was: seq<Word>, heap: seq<Word>, log: seq<Fixup>, w: Word)
    requires InStep(g, root, d, was, heap, log) && w.tag.IsPointer() && w.datum in d.place && d.start > 0
    requires w.tag == TC_ENVIRONMENT ==> d.envs
    ensures ForwardedTo(d, w, Word(w.tag, d.start + d.place[w.datum]))
    ensures Forwards(heap, w, Word(w.tag, d.start + d.place[w.datum]))
  {
    hide Laid, LogPlaced;
  }

  lemma ValueDumpable(g: Graph, w: Word)
    requires w == BROKEN_HEART_ZERO || w == UNBOUND_OBJECT
    ensures Dumpable(g, w) && !w.tag.ManifestNM?
  {
  }

  lemma NoManifest(g: Graph, w: Word)
    requires Dumpable(g, w)
    ensures !w.tag.ManifestNM?
  {
  }

  lemma ScannableWord(g: Graph, to: seq<Word>, i: nat)
    requires Scannable(g, to, i) && i < |to|
    ensures if to[i].tag.ManifestNM? then Scannable(g, to, i + 1 + to[i].datum) else Dumpable(g, to[i]) && Scannable(g, to, i + 1)
  {
  }

  lemma BlockSize(g: Graph, a: nat)
    requires a in g.blocks && BlockOk(g, a)
    ensures 1 <= g.blocks[a].size
  {
  }

  lemma AddedInside(g: Graph, log: seq<Fixup>, log': seq<Fixup>, a: nat)
    requires a in g.blocks && |log'| == |log| + 1 && log <= log' && log'[|log|].addr == a
    requires AllInside(g, log)
    ensures AllInside(g, log')
    ensures Logged(log', a)
  {
  }

  lemma PointerTo(g: Graph, w: Word)
    requires DumpGraph(g) && Dumpable(g, w) && w.tag.IsPointer()
    ensures w.datum in g.blocks && Fits(w.tag, g.blocks[w.datum]) && BlockOk(g, w.datum)
  {
  }

  lemma BlockCdr(g: Graph, a: nat)
    requires DumpGraph(g) && AllDumpable(g) && a in g.blocks && g.blocks[a].size == 2
    requires g.blocks[a].kind.TupleKind? || g.blocks[a].kind.WeakKind?
    ensures a + 2 <= |g.mem| && Dumpable(g, BlockWords(g, a)[1])
    ensures Dumpable(g, BlockWords(g, a)[0]) && !BlockWords(g, a)[0].tag.ManifestNM?
  {
    assert BlockOk(g, a);
    assert Good(g, g.mem[a]) && Good(g, g.mem[a + 1]);
  }

  lemma VectorHeader(g: Graph, w: Word)
    requires DumpGraph(g) && Dumpable(g, w) && (w.tag.Vector? || w.tag.Ephemeron?)
    ensures w.datum in g.blocks && w.datum + g.blocks[w.datum].size <= |g.mem| && g.blocks[w.datum].size > 0
    ensures 1 + BlockWords(g, w.datum)[0].datum == g.blocks[w.datum].size
  {
    assert BlockOk(g, w.datum);
  }
}
