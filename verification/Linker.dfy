/**
 The restartable linker of src/microcode/cmpint.c, which fills the linkage sections of a compiled-code block one entry
 after the other and can be stopped by any handler call and taken up again later, after the block has moved.
 */
module Linker {
  import opened Common

  /** The number of words of an operator entry, and of the words before the first one. */
  const UUO_LINK_SIZE: Positive
  const OPERATOR_RELOCATION_OFFSET: nat

  datatype SectionType = Operator | GlobalOperator | Reference | Assignment | Other(code: int) {
    predicate Execute() { Operator? || GlobalOperator? }
  }

  /** A word of the block: the header of a linkage section, or anything else. */
  datatype Word = Marker(sectionType: SectionType, count: nat) | Object(datum: nat)

  /** What the linker reads in a word where it expects a header; the type is above the low sixteen bits. */
  function HeaderType(w: Word): SectionType {
    match w
    case Marker(t, _) => t
    case Object(datum) =>
      var code := datum / 0x1_0000;
      if code == 0 then Operator
      else if code == 1 then Reference
      else if code == 2 then Assignment
      else if code == 3 then GlobalOperator
      else Other(code)
  }

  function HeaderCount(w: Word): nat {
    match w
    case Marker(_, n) => n
    case Object(datum) =>
      if HeaderType(w).Execute() then datum % 0x1_0000 / UUO_LINK_SIZE else datum % 0x1_0000
  }

  datatype StackObject = ReturnAddress(address: int) | Fixnum(n: int) | Block(address: int) | LinkCachesRestart

  datatype Outcome = PrimDone | Failed(code: int)

  const ERR_COMPILED_CODE_ERROR: int

  // ----- the layout of the sections -----

  datatype Section = Section(sectionType: SectionType, count: nat)

  function EntrySize(t: SectionType): Positive {
    if t.Execute() then UUO_LINK_SIZE else 1
  }

  function Relocation(t: SectionType): nat {
    if t.Execute() then OPERATOR_RELOCATION_OFFSET else 0
  }

  function EntryOffset(t: SectionType, i: nat): nat {
    if i == 0 then 1 + Relocation(t) else EntryOffset(t, i - 1) + EntrySize(t)
  }

  function SectionSize(s: Section): nat {
    EntryOffset(s.sectionType, s.count)
  }

  /** The sizes are those that counting the sections uses. */
  lemma {:induction false} EntryOffsetIs(t: SectionType, i: nat)
    ensures EntryOffset(t, i) == 1 + Relocation(t) + i * EntrySize(t)
  {
    if i > 0 {
      EntryOffsetIs(t, i - 1);
      assert i * EntrySize(t) == (i - 1) * EntrySize(t) + EntrySize(t);
    }
  }

  lemma {:induction false} EntriesApart(t: SectionType, i: nat, j: nat)
    requires i < j
    ensures EntryOffset(t, i) + EntrySize(t) <= EntryOffset(t, j)
    decreases j
  {
    if i < j - 1 { EntriesApart(t, i, j - 1); }
  }

  /** Where section k starts, the first one being at offset c. */
  function Start(ss: seq<Section>, c: nat, k: nat): nat
    requires k <= |ss|
  {
    if k == 0 then c else Start(ss, c, k - 1) + SectionSize(ss[k - 1])
  }

  lemma {:induction false} StartsApart(ss: seq<Section>, c: nat, j: nat, k: nat)
    requires j < k <= |ss|
    ensures Start(ss, c, j) + SectionSize(ss[j]) <= Start(ss, c, k)
    decreases k
  {
    if j < k - 1 { StartsApart(ss, c, j, k - 1); }
  }

  /** No section but the last is without entries and has relocation words all the same. */
  ghost predicate Followable(ss: seq<Section>) {
    forall j | 0 <= j < |ss| - 1 ::
      !(ss[j].count == 0 && ss[j].sectionType.Execute() && OPERATOR_RELOCATION_OFFSET != 0)
  }

  // ----- what has been linked -----

  /** A successful call of the handler for a section type, with the name found at an offset of the block. */
  datatype Linked = Linked(sectionType: SectionType, name: Word, offset: int)

  /** The first i entries of the section at start, as the block was before linking. */
  function SectionLog(block: seq<Word>, s: Section, start: nat, i: nat): (r: seq<Linked>)
    requires i <= s.count && start + SectionSize(s) <= |block|
    ensures |r| == i
  {
    if i == 0 then [] else
      EntriesApart(s.sectionType, i - 1, i);
      Fits(s, i - 1);
      var offset := start + EntryOffset(s.sectionType, i - 1);
      SectionLog(block, s, start, i - 1) + [Linked(s.sectionType, block[offset], offset)]
  }

  lemma Fits(s: Section, i: nat)
    requires i < s.count
    ensures EntryOffset(s.sectionType, i) + EntrySize(s.sectionType) <= SectionSize(s)
  {
    EntriesApart(s.sectionType, i, s.count);
  }

  lemma SectionWithin(ss: seq<Section>, c: nat, k: nat)
    requires k < |ss|
    ensures Start(ss, c, k) + SectionSize(ss[k]) <= Start(ss, c, |ss|)
  {
    StartsApart(ss, c, k, |ss|);
  }

  /** All entries of the first k sections, in order. */
  function BlockLog(block: seq<Word>, ss: seq<Section>, c: nat, k: nat): seq<Linked>
    requires k <= |ss| && Start(ss, c, |ss|) <= |block|
  {
    if k == 0 then [] else
      SectionWithin(ss, c, k - 1);
      BlockLog(block, ss, c, k - 1) + SectionLog(block, ss[k - 1], Start(ss, c, k - 1), ss[k - 1].count)
  }

  /** No entry is in the log twice: its offsets increase. */
  lemma SectionLogIncreases(block: seq<Word>, s: Section, start: nat, i: nat, a: nat, b: nat)
    requires i <= s.count && start + SectionSize(s) <= |block| && a < b < i
    ensures SectionLog(block, s, start, i)[a].offset < SectionLog(block, s, start, i)[b].offset
    decreases i
  {
    SectionLogAt(block, s, start, i, a);
    SectionLogAt(block, s, start, i, b);
    EntriesApart(s.sectionType, a, b);
  }

  lemma {:induction false} SectionLogAt(block: seq<Word>, s: Section, start: nat, i: nat, a: nat)
    requires i <= s.count && start + SectionSize(s) <= |block| && a < i
    ensures SectionLog(block, s, start, i)[a].offset == start + EntryOffset(s.sectionType, a)
    ensures SectionLog(block, s, start, i)[a].sectionType == s.sectionType
    decreases i
  {
    if a < i - 1 { SectionLogAt(block, s, start, i - 1, a); }
  }

  /** No entry of the block is in the log twice, and they are in the order of the block. */
  lemma {:induction false} EachEntryOnce(block: seq<Word>, ss: seq<Section>, c: nat, k: nat)
    requires k <= |ss| && Start(ss, c, |ss|) <= |block|
    ensures forall a | 0 <= a < |BlockLog(block, ss, c, k)| ::
      BlockLog(block, ss, c, k)[a].offset < Start(ss, c, k)
    ensures forall a, b | 0 <= a < b < |BlockLog(block, ss, c, k)| ::
      BlockLog(block, ss, c, k)[a].offset < BlockLog(block, ss, c, k)[b].offset
  {
    if k > 0 {
      EachEntryOnce(block, ss, c, k - 1);
      SectionWithin(ss, c, k - 1);
      var s, start := ss[k - 1], Start(ss, c, k - 1);
      var before, log := BlockLog(block, ss, c, k - 1), SectionLog(block, s, start, s.count);
      assert BlockLog(block, ss, c, k) == before + log;
      forall a | 0 <= a < s.count ensures start <= log[a].offset < Start(ss, c, k) {
        SectionLogAt(block, s, start, s.count, a);
        Fits(s, a);
      }
      forall a, b | 0 <= a < b < s.count ensures log[a].offset < log[b].offset {
        SectionLogIncreases(block, s, start, s.count, a, b);
      }
    }
  }

  // ----- where the entries are -----

  /** The number of entries in the first k sections. */
  function Entries(ss: seq<Section>, k: nat): nat
    requires k <= |ss|
  {
    if k == 0 then 0 else Entries(ss, k - 1) + ss[k - 1].count
  }

  /** Where each entry is, counted from its section's header; one more than the last gives the section's size. */
  lemma EntryPlaces()
    ensures forall t, i: nat ::
              EntryOffset(t, i) ==
                1 + if t == Operator || t == GlobalOperator then OPERATOR_RELOCATION_OFFSET + i * UUO_LINK_SIZE else i
  {
    hide EntryOffset;
    forall t, i: nat
      ensures EntryOffset(t, i) ==
                1 + if t == Operator || t == GlobalOperator then OPERATOR_RELOCATION_OFFSET + i * UUO_LINK_SIZE else i
    {
      EntryOffsetIs(t, i);
    }
  }

  /** Where the sections start, and which number the first entry of each has. */
  lemma Places(ss: seq<Section>, c: nat) returns (starts: seq<nat>, firsts: seq<nat>)
    ensures |starts| == |firsts| == |ss| + 1 && starts[0] == c && firsts[0] == 0
    ensures forall k | 0 <= k <= |ss| :: starts[k] == Start(ss, c, k) && firsts[k] == Entries(ss, k)
    ensures forall k | 0 <= k < |ss| ::
              && firsts[k + 1] == firsts[k] + ss[k].count
              && starts[k + 1] == starts[k] + EntryOffset(ss[k].sectionType, ss[k].count)
  {
    starts := seq(|ss| + 1, k requires 0 <= k <= |ss| => Start(ss, c, k));
    firsts := seq(|ss| + 1, k requires 0 <= k <= |ss| => Entries(ss, k));
    hide EntryOffset;
  }

  /** Entry a of section k among those linked when section n and the i first entries of the next are. */
  lemma {:induction false} LoggedAt(block: seq<Word>, ss: seq<Section>, c: nat, n: nat, k: nat, a: nat)
    requires k < n <= |ss| && Start(ss, c, |ss|) <= |block| && a < ss[k].count
    ensures |BlockLog(block, ss, c, n)| == Entries(ss, n) && Entries(ss, k) + a < Entries(ss, n)
    ensures Start(ss, c, k) + EntryOffset(ss[k].sectionType, a) < |block|
    ensures var offset := Start(ss, c, k) + EntryOffset(ss[k].sectionType, a);
      BlockLog(block, ss, c, n)[Entries(ss, k) + a] == Linked(ss[k].sectionType, block[offset], offset)
    decreases n
  {
    BlockLogSize(block, ss, c, n - 1);
    SectionWithin(ss, c, n - 1);
    if k < n - 1 {
      LoggedAt(block, ss, c, n - 1, k, a);
    } else {
      SectionLoggedAt(block, ss[k], Start(ss, c, k), ss[k].count, a);
    }
  }

  lemma {:induction false} EntriesGrow(ss: seq<Section>, j: nat, k: nat)
    requires j < k <= |ss|
    ensures Entries(ss, j) + ss[j].count <= Entries(ss, k)
    decreases k
  {
    if j < k - 1 { EntriesGrow(ss, j, k - 1); }
  }

  /** Entry n of the log, when it is entry n - Entries(j) of section j. */
  lemma LogHas(block: seq<Word>, ss: seq<Section>, c: nat, log: seq<Linked>, k: nat, i: nat, j: nat, n: nat)
    requires Start(ss, c, |ss|) <= |block| && k <= |ss|
    requires if k == |ss| then i == 0 && log == BlockLog(block, ss, c, k) else LoggedUpTo(block, ss, c, log, k, i)
    requires j < |ss| && Entries(ss, j) <= n < Entries(ss, j) + ss[j].count && n < |log|
    ensures var offset := Start(ss, c, j) + EntryOffset(ss[j].sectionType, n - Entries(ss, j));
      offset < |block| && log[n] == Linked(ss[j].sectionType, block[offset], offset)
  {
    BlockLogSize(block, ss, c, k);
    hide BlockLog, SectionLog, Start, EntryOffset;
    if j > k { EntriesGrow(ss, k, j); }
    if j < k {
      EntriesGrow(ss, j, k);
      LoggedAt(block, ss, c, k, j, n - Entries(ss, j));
    } else {
      SectionLoggedAt(block, ss[k], Start(ss, c, k), i, n - Entries(ss, k));
    }
  }

  lemma LogSize(block: seq<Word>, ss: seq<Section>, c: nat, log: seq<Linked>, k: nat, i: nat)
    requires Start(ss, c, |ss|) <= |block| && k <= |ss|
    requires if k == |ss| then i == 0 && log == BlockLog(block, ss, c, k) else LoggedUpTo(block, ss, c, log, k, i)
    ensures |log| == Entries(ss, k) + i
  {
    BlockLogSize(block, ss, c, k);
  }

  lemma {:induction false} BlockLogSize(block: seq<Word>, ss: seq<Section>, c: nat, k: nat)
    requires k <= |ss| && Start(ss, c, |ss|) <= |block|
    ensures |BlockLog(block, ss, c, k)| == Entries(ss, k)
  {
    if k > 0 {
      SectionWithin(ss, c, k - 1);
      BlockLogSize(block, ss, c, k - 1);
    }
  }

  lemma {:induction false} SectionLoggedAt(block: seq<Word>, s: Section, start: nat, i: nat, a: nat)
    requires i <= s.count && start + SectionSize(s) <= |block| && a < i
    ensures var offset := start + EntryOffset(s.sectionType, a);
      offset < |block| && SectionLog(block, s, start, i)[a] == Linked(s.sectionType, block[offset], offset)
    decreases i
  {
    EntriesApart(s.sectionType, i - 1, i);
    Fits(s, a);
    if a < i - 1 { SectionLoggedAt(block, s, start, i - 1, a); }
  }

  // ----- the state of the linker -----

  /** The block starts with its sections described by their headers. */
  ghost predicate Described(block: seq<Word>, ss: seq<Section>, c: nat) {
    && Start(ss, c, |ss|) <= |block|
    && forall j | 0 <= j < |ss| ::
      (SectionWithin(ss, c, j); EntriesApart(ss[j].sectionType, 0, ss[j].count + 1);
       block[Start(ss, c, j)] == Marker(ss[j].sectionType, ss[j].count))
  }

  /** The offset of the next entry, or the word after the header before the first one. */
  function Frontier(ss: seq<Section>, c: nat, k: nat, i: nat): nat
    requires k < |ss|
  {
    Start(ss, c, k) + if i == 0 then 1 else EntryOffset(ss[k].sectionType, i)
  }

  /** Nothing before the sections has changed, nor anything from an offset on. */
  ghost predicate Untouched(block: seq<Word>, words: seq<Word>, c: nat, from: nat) {
    && |words| == |block| && c <= |block|
    && (forall p | 0 <= p < c :: words[p] == block[p])
    && (forall p | from <= p < |block| :: words[p] == block[p])
  }

  ghost predicate HeaderIs(words: seq<Word>, start: nat, t: SectionType, h: nat) {
    start < |words| && words[start] == Marker(t, h)
  }

  /** The log has all entries of the first k sections and i of the next. */
  ghost predicate LoggedUpTo(block: seq<Word>, ss: seq<Section>, c: nat, log: seq<Linked>, k: nat, i: nat) {
    && Start(ss, c, |ss|) <= |block| && k < |ss| && i <= ss[k].count && SectionFits(block, ss, c, k)
    && log == BlockLog(block, ss, c, k) + SectionLog(block, ss[k], Start(ss, c, k), i)
  }

  /**
   Sections before k are linked, and i entries of section k, whose header counts h of them; nothing after them has
   been touched.
   */
  ghost predicate Progress(block: seq<Word>, ss: seq<Section>, c: nat, words: seq<Word>, log: seq<Linked>,
                           k: nat, i: nat, h: nat)
  {
    && k < |ss| && i <= ss[k].count
    && Untouched(block, words, c, Frontier(ss, c, k, i))
    && HeadersCount(ss, c, words, k)
    && HeaderIs(words, Start(ss, c, k), ss[k].sectionType, h)
    && LoggedUpTo(block, ss, c, log, k, i)
  }

  ghost predicate SectionFits(block: seq<Word>, ss: seq<Section>, c: nat, k: nat)
    requires k < |ss|
  {
    Start(ss, c, k) + SectionSize(ss[k]) <= |block|
  }

  /** The headers of the first k sections count all their entries. */
  ghost predicate HeadersCount(ss: seq<Section>, c: nat, words: seq<Word>, k: nat) {
    k <= |ss| && forall j | 0 <= j < k ::
      Start(ss, c, j) < |words| && words[Start(ss, c, j)] == Marker(ss[j].sectionType, ss[j].count)
  }

  /** All sections are linked. */
  ghost predicate AllLinked(block: seq<Word>, ss: seq<Section>, c: nat, words: seq<Word>, log: seq<Linked>) {
    && Start(ss, c, |ss|) <= |block|
    && Untouched(block, words, c, Start(ss, c, |ss|))
    && HeadersCount(ss, c, words, |ss|)
    && log == BlockLog(block, ss, c, |ss|)
  }

  lemma EntryOffsetPositive(t: SectionType, i: nat)
    ensures EntryOffset(t, i) >= 1
  {
    if i > 0 { EntriesApart(t, 0, i); }
  }

  /** One more entry has been linked, by writing into its own words. */
  lemma EntryLinked(block: seq<Word>, ss: seq<Section>, c: nat, was: seq<Word>, now: seq<Word>, log: seq<Linked>,
                    k: nat, i: nat, h: nat, offset: nat, t: SectionType)
    requires Progress(block, ss, c, was, log, k, i, h) && i < ss[k].count && t == ss[k].sectionType
    requires |now| == |was| && offset == Start(ss, c, k) + EntryOffset(t, i)
    requires forall p | 0 <= p < |was| && !(offset <= p < offset + EntrySize(t)) :: now[p] == was[p]
    ensures offset < |block|
    ensures Progress(block, ss, c, now, log + [Linked(t, block[offset], offset)], k, i + 1, h)
  {
    hide BlockLog, SectionLog, HeadersCount, LoggedUpTo, EntryOffset, Start;
    NextOffset(ss, c, k, i);
    StartAfter(ss, c, k);
    EntryLogged(block, ss, c, log, k, i);
    HeadersStay(ss, c, was, now, k, offset);
  }

  lemma NextOffset(ss: seq<Section>, c: nat, k: nat, i: nat)
    requires k < |ss|
    ensures EntryOffset(ss[k].sectionType, i) >= 1 && EntryOffset(ss[k].sectionType, i + 1) >= 1
    ensures Frontier(ss, c, k, i) <= Start(ss, c, k) + EntryOffset(ss[k].sectionType, i)
    ensures Frontier(ss, c, k, i + 1)
      == Start(ss, c, k) + EntryOffset(ss[k].sectionType, i) + EntrySize(ss[k].sectionType)
  {
    EntryOffsetPositive(ss[k].sectionType, i);
  }

  lemma EntryLogged(block: seq<Word>, ss: seq<Section>, c: nat, log: seq<Linked>, k: nat, i: nat)
    requires LoggedUpTo(block, ss, c, log, k, i) && i < ss[k].count
    ensures var t := ss[k].sectionType;
      var offset := Start(ss, c, k) + EntryOffset(t, i);
      offset < |block| && LoggedUpTo(block, ss, c, log + [Linked(t, block[offset], offset)], k, i + 1)
  {
    hide BlockLog;
    var t := ss[k].sectionType;
    Fits(ss[k], i);
    var offset := Start(ss, c, k) + EntryOffset(t, i);
    hide EntryOffset, Start;
    assert SectionLog(block, ss[k], Start(ss, c, k), i + 1)
      == SectionLog(block, ss[k], Start(ss, c, k), i) + [Linked(t, block[offset], offset)];
    assert log + [Linked(t, block[offset], offset)] == BlockLog(block, ss, c, k)
      + (SectionLog(block, ss[k], Start(ss, c, k), i) + [Linked(t, block[offset], offset)]);
  }

  lemma {:induction false} StartAfter(ss: seq<Section>, c: nat, k: nat)
    requires k <= |ss|
    ensures c <= Start(ss, c, k)
  {
    if k > 0 { StartAfter(ss, c, k - 1); }
  }

  /** Headers of earlier sections stay when only words from offset on change. */
  lemma HeadersStay(ss: seq<Section>, c: nat, was: seq<Word>, now: seq<Word>, k: nat, offset: nat)
    requires k < |ss| && HeadersCount(ss, c, was, k) && |now| == |was| && Start(ss, c, k) <= offset
    requires forall p | 0 <= p < offset && p < |was| :: now[p] == was[p]
    ensures HeadersCount(ss, c, now, k)
  {
    forall j | 0 <= j < k
      ensures Start(ss, c, j) < |now| && now[Start(ss, c, j)] == Marker(ss[j].sectionType, ss[j].count)
    {
      StartsApart(ss, c, j, k);
      EntryOffsetPositive(ss[j].sectionType, ss[j].count);
    }
  }

  /** The header is rewritten with the number of entries linked. */
  lemma HeaderWritten(block: seq<Word>, ss: seq<Section>, c: nat, was: seq<Word>, log: seq<Linked>, k: nat, i: nat,
                      h: nat)
    requires Progress(block, ss, c, was, log, k, i, h)
    ensures Progress(block, ss, c, was[Start(ss, c, k) := Marker(ss[k].sectionType, i)], log, k, i, i)
  {
    hide LoggedUpTo;
    EntryOffsetPositive(ss[k].sectionType, i);
    StartAfter(ss, c, k);
    HeadersStay(ss, c, was, was[Start(ss, c, k) := Marker(ss[k].sectionType, i)], k, Start(ss, c, k));
  }

  /** The scan pointer is left at the next section exactly when no relocation words go with an empty section. */
  lemma SectionEnds(ss: seq<Section>, c: nat, k: nat)
    requires k < |ss|
    ensures Frontier(ss, c, k, ss[k].count) <= Start(ss, c, k + 1)
    ensures Frontier(ss, c, k, ss[k].count) == Start(ss, c, k + 1)
      <==> !(ss[k].count == 0 && ss[k].sectionType.Execute() && OPERATOR_RELOCATION_OFFSET != 0)
  {
    if ss[k].count > 0 { EntriesApart(ss[k].sectionType, 0, ss[k].count); }
  }

  lemma SectionLogged(block: seq<Word>, ss: seq<Section>, c: nat, log: seq<Linked>, k: nat)
    requires Described(block, ss, c) && k < |ss| && LoggedUpTo(block, ss, c, log, k, ss[k].count)
    ensures log == BlockLog(block, ss, c, k + 1)
    ensures k + 1 < |ss| ==> LoggedUpTo(block, ss, c, log, k + 1, 0)
  {
    hide Described;
    assert Start(ss, c, |ss|) <= |block|;
    hide Start, EntryOffset;
    SectionWithin(ss, c, k);
    if k + 1 < |ss| { SectionWithin(ss, c, k + 1); }
    assert log == BlockLog(block, ss, c, k + 1);
  }

  /** A section with all entries linked is the next one with none. */
  lemma SectionDone(block: seq<Word>, ss: seq<Section>, c: nat, words: seq<Word>, log: seq<Linked>, k: nat)
    requires Described(block, ss, c) && Followable(ss)
    requires k < |ss| && Progress(block, ss, c, words, log, k, ss[k].count, ss[k].count)
    ensures k + 1 < |ss| ==> Progress(block, ss, c, words, log, k + 1, 0, ss[k + 1].count)
    ensures k + 1 == |ss| ==> AllLinked(block, ss, c, words, log)
  {
    hide BlockLog, SectionLog, LoggedUpTo, Start, EntryOffset;
    SectionEnds(ss, c, k);
    NextStarts(ss, c, k);
    SectionLogged(block, ss, c, log, k);
    if k + 1 < |ss| {
      DescribedAt(block, ss, c, k + 1);
    } else {
      DescribedEnd(block, ss, c);
    }
  }

  lemma DescribedAt(block: seq<Word>, ss: seq<Section>, c: nat, k: nat)
    requires Described(block, ss, c) && k < |ss|
    ensures HeaderIs(block, Start(ss, c, k), ss[k].sectionType, ss[k].count)
  {
    SectionWithin(ss, c, k);
    EntryOffsetPositive(ss[k].sectionType, ss[k].count);
  }

  lemma DescribedEnd(block: seq<Word>, ss: seq<Section>, c: nat)
    requires Described(block, ss, c)
    ensures Start(ss, c, |ss|) <= |block| && c <= |block|
  {
    StartAfter(ss, c, |ss|);
  }

  lemma NothingLinked(block: seq<Word>, ss: seq<Section>, c: nat)
    requires Described(block, ss, c)
    ensures |ss| == 0 ==> AllLinked(block, ss, c, block, [])
    ensures |ss| > 0 ==> Progress(block, ss, c, block, [], 0, 0, ss[0].count)
  {
    DescribedEnd(block, ss, c);
    if |ss| > 0 {
      DescribedAt(block, ss, c, 0);
      SectionWithin(ss, c, 0);
    }
  }

  lemma ProgressHeader(block: seq<Word>, ss: seq<Section>, c: nat, words: seq<Word>, log: seq<Linked>, k: nat,
                       i: nat, h: nat)
    requires Progress(block, ss, c, words, log, k, i, h)
    ensures HeaderIs(words, Start(ss, c, k), ss[k].sectionType, h)
  {
  }

  /** What is on the stack after backing out. */
  function SavedState(returnAddress: int, sections: int, scan0: int, scan: int, block: int, left: int, entries: int)
    : seq<StackObject>
  {
    [ReturnAddress(returnAddress), Fixnum(sections), Fixnum(scan0), Fixnum(scan), Block(block), Fixnum(left),
     Fixnum(entries), LinkCachesRestart]
  }

  // ----- handler calls -----

  /**
   The outcomes of handler calls from number `from` up to `end`: all good, as many as entries were linked, and then
   perhaps one that failed with the result; an unknown section type fails without a call.
   */
  ghost predicate Called(outcomes: nat -> Outcome, from: nat, end: nat, linked: int, result: Outcome, unknown: bool) {
    && linked >= 0 && end == from + linked + (if result.Failed? && !unknown then 1 else 0)
    && (forall j | from <= j < from + linked :: outcomes(j).PrimDone?)
    && (result.Failed? ==> result == if unknown then Failed(ERR_COMPILED_CODE_ERROR) else outcomes(from + linked))
  }

  lemma CalledOn(outcomes: nat -> Outcome, a: nat, b: nat, c: nat, m: int, n: int, result: Outcome, unknown: bool)
    requires Called(outcomes, a, b, m, PrimDone, false) && Called(outcomes, b, c, n, result, unknown)
    ensures Called(outcomes, a, c, m + n, result, unknown)
  {
  }

  /** The numbers of the calls that failed. */
  ghost function FailedCalls(outcomes: nat -> Outcome, from: nat, end: nat): set<nat> {
    set j | from <= j < end && outcomes(j).Failed?
  }

  /** One more attempt adds at most one failed call. */
  lemma FailedNext(outcomes: nat -> Outcome, from: nat, a: nat, b: nat, linked: int, result: Outcome, unknown: bool)
    requires from <= a && Called(outcomes, a, b, linked, result, unknown)
    ensures a <= b
    ensures |FailedCalls(outcomes, from, b)|
      == |FailedCalls(outcomes, from, a)| + if result.Failed? && !unknown then 1 else 0
  {
    if result.Failed? && !unknown {
      assert FailedCalls(outcomes, from, b) == FailedCalls(outcomes, from, a) + {b - 1};
    } else {
      assert FailedCalls(outcomes, from, b) == FailedCalls(outcomes, from, a);
    }
  }

  /** After some attempts: every attempt but the last has failed in a handler, unless a section's type is unknown. */
  ghost predicate Tally(outcomes: nat -> Outcome, from: nat, end: nat, linked: int, attempt: nat, result: Outcome,
                        unknown: bool)
  {
    var failed := |FailedCalls(outcomes, from, end)|;
    && end == from + linked + failed
    && (result.PrimDone? ==> failed <= attempt)
    && (result.Failed? ==>
          if unknown then result == Failed(ERR_COMPILED_CODE_ERROR) && failed <= attempt
          else failed == attempt + 1 && end > from && result == outcomes(end - 1))
  }

  lemma TallyFirst(outcomes: nat -> Outcome, from: nat, end: nat, linked: int, result: Outcome, unknown: bool)
    requires Called(outcomes, from, end, linked, result, unknown)
    ensures Tally(outcomes, from, end, linked, 0, result, unknown)
  {
    assert FailedCalls(outcomes, from, from) == {};
    FailedNext(outcomes, from, from, end, linked, result, unknown);
  }

  lemma TallyNext(outcomes: nat -> Outcome, from: nat, a: nat, b: nat, m: int, n: int, attempt: nat, was: Outcome,
                  wasUnknown: bool, result: Outcome, unknown: bool)
    requires Tally(outcomes, from, a, m, attempt, was, wasUnknown) && was.Failed? && m >= 0
    requires Called(outcomes, a, b, n, result, unknown) && (wasUnknown ==> unknown && result.Failed?)
    ensures Tally(outcomes, from, b, m + n, attempt + 1, result, unknown)
  {
    FailedNext(outcomes, from, a, b, n, result, unknown);
  }

  class LinkState {
    /** The words of the block, which is at address blockAt; the stack, its top last. */
    const words: array<Word>
    var blockAt: int
    var stack: seq<StackObject>
    /** The successful handler calls so far. */
    ghost var log: seq<Linked>
    /** What handler calls answer, one after the other, and how many there have been. */
    const outcomes: nat -> Outcome
    var calls: nat

    var returnAddress: int
    var blockAddress: int
    var scan: int
    var nSections: int
    var nLinkedSections: int
    var scan0: int
    var sectionType: SectionType
    var nEntries: int
    var nLinkedEntries: int

    constructor (block: seq<Word>, address: int, outcomes: nat -> Outcome)
      ensures fresh(words) && words[..] == block && blockAt == address && stack == [] && log == []
      ensures this.outcomes == outcomes && calls == 0
    {
      this.outcomes, calls := outcomes, 0;
      words := new Word[|block|](i requires 0 <= i < |block| => block[i]);
      blockAt, stack, log := address, [], [];
      returnAddress, blockAddress, scan, nSections, nLinkedSections, scan0 := 0, 0, 0, 0, 0, 0;
      sectionType, nEntries, nLinkedEntries := Reference, 0, 0;
    }

    /** Section k is being linked, and i entries of it are. */
    ghost predicate InSection(ss: seq<Section>, c: nat, k: nat, i: nat)
      reads this
    {
      && k < |ss| && i <= ss[k].count
      && blockAddress == blockAt && nSections - nLinkedSections == |ss| - k
      && scan0 == blockAt + Start(ss, c, k) && scan == blockAt + Frontier(ss, c, k, i)
      && sectionType == ss[k].sectionType && nEntries == ss[k].count && nLinkedEntries == i
    }

    /** Section k comes next. */
    ghost predicate BeforeSection(ss: seq<Section>, c: nat, k: nat)
      reads this
    {
      && k <= |ss| && blockAddress == blockAt && nSections - nLinkedSections == |ss| - k
      && (k < |ss| ==> scan == blockAt + Start(ss, c, k))
    }

    /** Some handler call has failed, and what is needed to go on is on the stack. */
    ghost predicate BackedOut(ss: seq<Section>, c: nat, k: nat, i: nat, rest: seq<StackObject>, return_: int)
      reads this
    {
      && k < |ss| && i <= ss[k].count
      && stack == rest + SavedState(return_, |ss| - k, Start(ss, c, k), Frontier(ss, c, k, i), blockAt,
                                    ss[k].count - i, ss[k].count)
    }

    function Read(address: int): Word
      requires 0 <= address - blockAt < words.Length
      reads this, words
    {
      words[address - blockAt]
    }

    /** A handler for one entry; it may fail, and if it does not it fills the entry's words. */
    method CallHandler(name: Word, offset: nat, size: nat) returns (result: Outcome)
      requires offset + size <= words.Length
      modifies words, `log, `calls
      ensures result == outcomes(old(calls)) && calls == old(calls) + 1
      ensures result.Failed? ==> words[..] == old(words[..]) && log == old(log)
      ensures result.PrimDone? ==> log == old(log) + [Linked(sectionType, name, offset)]
      ensures forall p | 0 <= p < words.Length && !(offset <= p < offset + size) :: words[p] == old(words[p])
    {
      result := outcomes(calls);
      calls := calls + 1;
      if result.PrimDone? {
        var filled: int -> Word := *;
        forall p | offset <= p < offset + size { words[p] := filled(p); }
        log := log + [Linked(sectionType, name, offset)];
      }
    }

    /** Takes the word at the scan pointer as a header, whatever it is. */
    method StartLinkingSection()
      requires 0 <= scan - blockAt < words.Length
      modifies `scan0, `scan, `nLinkedEntries, `sectionType, `nEntries
      ensures scan0 == old(scan) && scan == old(scan) + 1 && nLinkedEntries == 0
      ensures sectionType == HeaderType(old(Read(scan))) && nEntries == HeaderCount(old(Read(scan)))
    {
      scan0 := scan;
      nLinkedEntries := 0;
      var header := Read(scan);
      scan := scan + 1;
      sectionType := HeaderType(header);
      nEntries := HeaderCount(header);
    }

    method BackOutOfLinkSection()
      modifies `stack
      ensures stack == old(stack) + SavedState(returnAddress, nSections - nLinkedSections, scan0 - blockAddress,
        scan - blockAddress, blockAddress, nEntries - nLinkedEntries, nEntries)
    {
      stack := stack + [ReturnAddress(returnAddress)];
      stack := stack + [Fixnum(nSections - nLinkedSections)];
      stack := stack + [Fixnum(scan0 - blockAddress)];
      stack := stack + [Fixnum(scan - blockAddress)];
      stack := stack + [Block(blockAddress)];
      stack := stack + [Fixnum(nEntries - nLinkedEntries)];
      stack := stack + [Fixnum(nEntries)];
      stack := stack + [LinkCachesRestart];
    }

    method Pop(ghost rest: seq<StackObject>, ghost top: seq<StackObject>) returns (x: StackObject)
      requires stack == rest + top && top != []
      modifies `stack
      ensures stack == rest + top[..|top| - 1] && x == top[|top| - 1]
    {
      x := stack[|stack| - 1];
      stack := stack[..|stack| - 1];
    }

    method RestoreLinkCcState(ghost block: seq<Word>, ghost ss: seq<Section>, ghost c: nat, ghost k: nat,
                              ghost i: nat, ghost rest: seq<StackObject>, ghost return_: int)
      requires Described(block, ss, c) && BackedOut(ss, c, k, i, rest, return_)
      requires Progress(block, ss, c, words[..], log, k, i, i)
      modifies this
      ensures InSection(ss, c, k, i) && stack == rest && log == old(log) && blockAt == old(blockAt)
      ensures calls == old(calls)
      ensures returnAddress == return_
    {
      hide Described, Progress, Start, Frontier;
      ProgressHeader(block, ss, c, words[..], log, k, i, i);
      ghost var saved := SavedState(return_, |ss| - k, Start(ss, c, k), Frontier(ss, c, k, i), blockAt,
                                    ss[k].count - i, ss[k].count);
      var x := Pop(rest, saved);
      x := Pop(rest, saved[..7]);
      nEntries := x.n;
      x := Pop(rest, saved[..6]);
      nLinkedEntries := nEntries - x.n;
      x := Pop(rest, saved[..5]);
      blockAddress := x.address;
      x := Pop(rest, saved[..4]);
      scan := blockAddress + x.n;
      x := Pop(rest, saved[..3]);
      scan0 := blockAddress + x.n;
      x := Pop(rest, saved[..2]);
      nSections := x.n;
      x := Pop(rest, saved[..1]);
      returnAddress := x.address;
      nLinkedSections := 0;
      var header := Read(scan0);
      assert header == words[..][Start(ss, c, k)];
      sectionType := header.sectionType;
    }

    /** Calls the handler on one entry after the other, until it fails or there are none left. */
    method LinkEntries(here0: int, nLinked0: nat, ghost block: seq<Word>, ghost ss: seq<Section>, ghost c: nat,
                       ghost k: nat, ghost h: nat)
      returns (result: Outcome, here: int, nLinked: nat)
      requires Progress(block, ss, c, words[..], log, k, nLinked0, h)
      requires k < |ss| && sectionType == ss[k].sectionType && nEntries == ss[k].count && blockAddress == blockAt
      requires here0 == blockAt + Start(ss, c, k) + EntryOffset(sectionType, nLinked0)
      modifies words, `log, `calls
      ensures Called(outcomes, old(calls), calls, |log| - |old(log)|, result, false)
      ensures nLinked0 <= nLinked <= nEntries && (result.PrimDone? <==> nLinked == nEntries)
      ensures here == blockAt + Start(ss, c, k) + EntryOffset(sectionType, nLinked)
      ensures Progress(block, ss, c, words[..], log, k, nLinked, h)
    {
      hide Progress, Start, EntryOffset, EntrySize;
      ProgressBound(block, ss, c, words[..], log, k, nLinked0, h);
      result, here, nLinked := PrimDone, here0, nLinked0;
      var entrySize := EntrySize(sectionType);
      while nLinked < nEntries
        invariant nLinked0 <= nLinked <= nEntries
        invariant here == blockAt + Start(ss, c, k) + EntryOffset(sectionType, nLinked)
        invariant Progress(block, ss, c, words[..], log, k, nLinked, h) && result.PrimDone?
        invariant nEntries == old(nEntries)
        invariant Called(outcomes, old(calls), calls, |log| - |old(log)|, result, false)
        decreases nEntries - nLinked
      {
        ghost var was, log0 := words[..], log;
        EntryWithin(block, ss, c, was, log, k, nLinked, h);
        var name := Read(here);
        result := CallHandler(name, here - blockAddress, entrySize);
        if result.Failed? {
          assert words[..] == was;
          break;
        }
        EntryLinked(block, ss, c, was, words[..], log0, k, nLinked, h, here - blockAddress, sectionType);
        NextEntry(sectionType, nLinked);
        here := here + entrySize;
        nLinked := nLinked + 1;
      }
    }

    /** Links the entries of section k from entry i on. */
    method LinkSection(ghost block: seq<Word>, ghost ss: seq<Section>, ghost c: nat, ghost k: nat, ghost i: nat,
                       ghost h: nat)
      returns (result: Outcome, ghost i': nat)
      requires Described(block, ss, c) && InSection(ss, c, k, i)
      requires Progress(block, ss, c, words[..], log, k, i, h)
      modifies words, `log, `calls, `scan, `nLinkedEntries, `nLinkedSections, `stack
      ensures Called(outcomes, old(calls), calls, |log| - |old(log)|, result, ss[k].sectionType.Other?)
      ensures i <= i' <= ss[k].count
      ensures Progress(block, ss, c, words[..], log, k, i', i')
      ensures result.PrimDone? <==> i' == ss[k].count && !ss[k].sectionType.Other?
      ensures result.PrimDone? ==> stack == old(stack)
      ensures result.PrimDone? ==> scan == blockAt + Frontier(ss, c, k, i')
      ensures result.PrimDone? ==> nSections - nLinkedSections == |ss| - (k + 1)
      ensures result.Failed? ==> BackedOut(ss, c, k, i', old(stack), returnAddress)
    {
      hide Described, Progress, Start, EntryOffset, Relocation;
      var scan1 := scan0 + 1;
      var nLinked := nLinkedEntries;
      var here := scan;
      result := PrimDone;
      i' := i;
      if sectionType.Other? {
        result := Failed(ERR_COMPILED_CODE_ERROR);
      } else {
        FirstEntry(ss[k].sectionType);
        if sectionType.Execute() {
          if nLinked == 0 {
            here := here + OPERATOR_RELOCATION_OFFSET;
          } else {
            scan1 := scan1 + OPERATOR_RELOCATION_OFFSET;
          }
        }
        result, here, nLinked := LinkEntries(here, nLinked, block, ss, c, k, h);
        i' := nLinked;
      }
      scan := if nLinked == 0 then scan1 else here;
      nLinkedEntries := nLinked;
      HeaderWritten(block, ss, c, words[..], log, k, i', h);
      ProgressHeader(block, ss, c, words[..], log, k, i', h);
      words[scan0 - blockAt] := Marker(sectionType, nLinked);
      if result.PrimDone? {
        nLinkedSections := nLinkedSections + 1;
      } else {
        BackOutOfLinkSection();
      }
    }

    /** Links section k and the ones after it. */
    method LinkRemainingSections(ghost block: seq<Word>, ghost ss: seq<Section>, ghost c: nat, ghost k: nat)
      returns (result: Outcome, ghost k': nat, ghost i': nat)
      requires Described(block, ss, c) && Followable(ss) && BeforeSection(ss, c, k)
      requires k < |ss| ==> Progress(block, ss, c, words[..], log, k, 0, ss[k].count)
      requires k == |ss| ==> AllLinked(block, ss, c, words[..], log)
      modifies words, `log, `calls, `scan, `scan0, `sectionType, `nEntries, `nLinkedEntries, `nLinkedSections, `stack
      ensures result.PrimDone? ==> AllLinked(block, ss, c, words[..], log) && stack == old(stack)
      ensures result.Failed? ==> Progress(block, ss, c, words[..], log, k', i', i')
      ensures result.Failed? ==> BackedOut(ss, c, k', i', old(stack), returnAddress) && k' < |ss| && i' <= ss[k'].count
      ensures Called(outcomes, old(calls), calls, |log| - |old(log)|, result,
                     result.Failed? && ss[k'].sectionType.Other?)
    {
      hide Described, Followable, Progress, AllLinked, Start, EntryOffset;
      k', i' := k, 0;
      while nLinkedSections < nSections
        invariant k <= k' <= |ss| && BeforeSection(ss, c, k') && stack == old(stack)
        invariant k' < |ss| ==> Progress(block, ss, c, words[..], log, k', 0, ss[k'].count)
        invariant k' == |ss| ==> AllLinked(block, ss, c, words[..], log)
        invariant Called(outcomes, old(calls), calls, |log| - |old(log)|, PrimDone, false)
        decreases |ss| - k'
      {
        ghost var calls0, log0 := calls, log;
        HeaderNext(block, ss, c, words[..], log, k');
        StartLinkingSection();
        result, i' := LinkSection(block, ss, c, k', 0, ss[k'].count);
        CalledOn(outcomes, old(calls), calls0, calls, |log0| - |old(log)|, |log| - |log0|, result,
                 result.Failed? && ss[k'].sectionType.Other?);
        if result.Failed? { return; }
        SectionDone(block, ss, c, words[..], log, k');
        NextStarts(ss, c, k');
        k' := k' + 1;
      }
      result := PrimDone;
    }

    /**
     Two turns of the linker, the first at an operator section that has relocation words, no entries, and a section
     after it: the second turn takes the section's relocation word as a header.
     */
    method LinkPastEmptySection(ghost block: seq<Word>, ghost ss: seq<Section>, ghost c: nat, ghost k: nat)
      returns (result: Outcome)
      requires Described(block, ss, c) && BeforeSection(ss, c, k) && k + 1 < |ss|
      requires Progress(block, ss, c, words[..], log, k, 0, ss[k].count)
      requires ss[k].count == 0 && ss[k].sectionType.Execute() && OPERATOR_RELOCATION_OFFSET != 0
      modifies words, `log, `calls, `scan, `scan0, `sectionType, `nEntries, `nLinkedEntries, `nLinkedSections, `stack
      ensures result.PrimDone? && nSections - nLinkedSections == |ss| - (k + 1)
      ensures scan0 == blockAt + Start(ss, c, k) + 1 != blockAt + Start(ss, c, k + 1)
      ensures Start(ss, c, k) + 1 < |block|
      ensures sectionType == HeaderType(block[Start(ss, c, k) + 1]) && nEntries == HeaderCount(block[Start(ss, c, k) + 1])
    {
      hide Described, Progress, Start, EntryOffset, HeaderType, HeaderCount;
      HeaderNext(block, ss, c, words[..], log, k);
      StartLinkingSection();
      ghost var i;
      result, i := LinkSection(block, ss, c, k, 0, 0);
      SectionEnds(ss, c, k);
      DescribedEnd(block, ss, c);
      SectionWithin(ss, c, k + 1);
      BehindHeader(block, ss, c, words[..], log, k, 0);
      StartLinkingSection();
    }

    /** The linker as compiled code calls it. */
    method Link(return_: int, block_: int, constant: int, sections: nat,
                ghost block: seq<Word>, ghost ss: seq<Section>, ghost c: nat)
      returns (result: Outcome, ghost k': nat, ghost i': nat)
      requires Described(block, ss, c) && Followable(ss) && words[..] == block && log == []
      requires block_ == blockAt && constant == blockAt + c && sections == |ss|
      modifies this, words
      ensures blockAt == old(blockAt) && returnAddress == return_
      ensures result.PrimDone? ==> AllLinked(block, ss, c, words[..], log) && stack == old(stack)
      ensures result.Failed? ==> Progress(block, ss, c, words[..], log, k', i', i')
      ensures result.Failed? ==> BackedOut(ss, c, k', i', old(stack), return_) && k' < |ss| && i' <= ss[k'].count
      ensures Called(outcomes, old(calls), calls, |log| - |old(log)|, result,
                     result.Failed? && ss[k'].sectionType.Other?)
    {
      NothingLinked(block, ss, c);
      assert Start(ss, c, 0) == c;
      hide Described, Followable, Progress, AllLinked, Called, Start, EntryOffset, BackedOut;
      returnAddress := return_;
      blockAddress := block_;
      scan := constant;
      nSections := sections;
      nLinkedSections := 0;
      result, k', i' := LinkRemainingSections(block, ss, c, 0);
    }

    /** Linking taken up again where it stopped. */
    method Restart(ghost block: seq<Word>, ghost ss: seq<Section>, ghost c: nat, ghost k: nat, ghost i: nat,
                   ghost rest: seq<StackObject>, ghost return_: int)
      returns (result: Outcome, ghost k': nat, ghost i': nat)
      requires Described(block, ss, c) && Followable(ss) && BackedOut(ss, c, k, i, rest, return_)
      requires Progress(block, ss, c, words[..], log, k, i, i)
      modifies this, words
      ensures ss[k].sectionType.Other? ==> result.Failed? && k' == k
      ensures blockAt == old(blockAt) && returnAddress == return_
      ensures result.PrimDone? ==> AllLinked(block, ss, c, words[..], log) && stack == rest
      ensures result.Failed? ==> Progress(block, ss, c, words[..], log, k', i', i')
      ensures result.Failed? ==> BackedOut(ss, c, k', i', rest, return_) && k' < |ss| && i' <= ss[k'].count
      ensures Called(outcomes, old(calls), calls, |log| - |old(log)|, result,
                     result.Failed? && ss[k'].sectionType.Other?)
    {
      hide Described, Followable, Progress, AllLinked, Start, EntryOffset;
      RestoreLinkCcState(block, ss, c, k, i, rest, return_);
      result, i' := LinkSection(block, ss, c, k, i, i);
      k' := k;
      if result.PrimDone? {
        ghost var calls0, log0 := calls, log;
        SectionDone(block, ss, c, words[..], log, k);
        NextStarts(ss, c, k);
        result, k', i' := LinkRemainingSections(block, ss, c, k + 1);
        CalledOn(outcomes, old(calls), calls0, calls, |log0| - |old(log)|, |log| - |log0|, result,
                 result.Failed? && ss[k'].sectionType.Other?);
      }
    }

    /** The garbage collector moves the block, and updates the addresses saved on the stack. */
    method Move(newAddress: int, newReturn: int, ghost ss: seq<Section>, ghost c: nat, ghost k: nat, ghost i: nat,
                ghost rest: seq<StackObject>, ghost return_: int)
      requires BackedOut(ss, c, k, i, rest, return_)
      modifies `blockAt, `stack
      ensures BackedOut(ss, c, k, i, rest, newReturn) && blockAt == newAddress
    {
      blockAt := newAddress;
      stack := stack[|stack| - 4 := Block(newAddress)];
      stack := stack[|stack| - 8 := ReturnAddress(newReturn)];
    }

    /**
     Any run: an attempt to link, and any number of restarts, with the block moving anywhere in between. It ends well
     unless a handler fails once more than there are restarts, or a section's type is unknown. When it ends well every
     entry has been linked, once and in order; otherwise i entries of section k and all entries before it have, and
     the header of section k counts i.
     */
    method Run(return_: int, c: nat, sections: nat, attempts: nat, ghost block: seq<Word>, ghost ss: seq<Section>)
      returns (result: Outcome, ghost k: nat, ghost i: nat, ghost starts: seq<nat>, ghost firsts: seq<nat>)
      requires Described(block, ss, c) && Followable(ss) && words[..] == block && log == [] && sections == |ss|
      modifies this, words
      ensures result.PrimDone? ==> k == |ss| && i == 0 && stack == old(stack)
      ensures result.Failed? ==> k < |ss| && i <= ss[k].count
      ensures calls >= old(calls)
      ensures var failed := set j | old(calls) <= j < calls && outcomes(j).Failed?;
        && calls == old(calls) + |log| + |failed|
        && (result.PrimDone? ==> |failed| <= attempts)
        && (result.Failed? && ss[k].sectionType.Other? ==> result == Failed(ERR_COMPILED_CODE_ERROR))
        && (result.Failed? && !ss[k].sectionType.Other? ==>
              |failed| == attempts + 1 && calls > 0 && result == outcomes(calls - 1))
      ensures |starts| == |firsts| == |ss| + 1 && starts[0] == c && firsts[0] == 0
      ensures forall k | 0 <= k < |ss| ::
                && firsts[k + 1] == firsts[k] + ss[k].count
                && starts[k + 1] == starts[k] + EntryOffset(ss[k].sectionType, ss[k].count)
      ensures forall t, i: nat ::
                EntryOffset(t, i) ==
                  1 + if t == Operator || t == GlobalOperator then OPERATOR_RELOCATION_OFFSET + i * UUO_LINK_SIZE else i
      ensures |log| == firsts[k] + i
      ensures forall j: nat, n: nat {:trigger firsts[j], log[n]} |
                  j < |ss| && firsts[j] <= n < firsts[j] + ss[j].count && n < |log| ::
                var offset := starts[j] + EntryOffset(ss[j].sectionType, n - firsts[j]);
                offset < |block| && log[n] == Linked(ss[j].sectionType, block[offset], offset)
      ensures forall j | 0 <= j < k ::
                starts[j] < words.Length && words[starts[j]] == Marker(ss[j].sectionType, ss[j].count)
      ensures k < |ss| ==> starts[k] < words.Length && words[starts[k]] == Marker(ss[k].sectionType, i)
      ensures words.Length == |block| && c <= |block|
      ensures forall p | 0 <= p < c :: words[p] == block[p]
      ensures forall p | (if k == |ss| then starts[k] else if i == 0 then starts[k] + 1
                          else starts[k] + EntryOffset(ss[k].sectionType, i)) <= p < |block| ::
                words[p] == block[p]
    {
      hide Described, LinkedTo, Tally, EntryOffset, Start, Entries;
      var attempt;
      result, attempt, k, i := Attempts(return_, c, sections, attempts, block, ss);
      TallyMeans(outcomes, old(calls), calls, |log|, attempt, result, result.Failed? && ss[k].sectionType.Other?);
      EntryPlaces();
      starts, firsts := Places(ss, c);
      RunLog(block, ss, c, words[..], log, k, i, starts, firsts);
      RunWords(block, ss, c, words[..], log, k, i, starts);
    }

    /** The attempts of a run. */
    method Attempts(return_: int, c: nat, sections: nat, attempts: nat, ghost block: seq<Word>, ghost ss: seq<Section>)
      returns (result: Outcome, attempt: nat, ghost k: nat, ghost i: nat)
      requires Described(block, ss, c) && Followable(ss) && words[..] == block && log == [] && sections == |ss|
      modifies this, words
      ensures attempt <= attempts && (result.Failed? ==> attempt == attempts)
      ensures result.PrimDone? ==> k == |ss| && i == 0 && stack == old(stack)
      ensures result.Failed? ==> k < |ss| && i <= ss[k].count
      ensures LinkedTo(block, ss, c, words[..], log, k, i)
      ensures calls >= old(calls)
      ensures Tally(outcomes, old(calls), calls, |log|, attempt, result, result.Failed? && ss[k].sectionType.Other?)
    {
      hide Described, Followable, Progress, AllLinked, BackedOut, Called, Tally, FailedCalls, EntryOffset, Start;
      ghost var rest := stack;
      result, k, i := Link(return_, blockAt, blockAt + c, sections, block, ss, c);
      TallyFirst(outcomes, old(calls), calls, |log|, result, result.Failed? && ss[k].sectionType.Other?);
      attempt := 0;
      while result.Failed? && attempt < attempts
        invariant result.PrimDone? ==> AllLinked(block, ss, c, words[..], log) && stack == rest
        invariant result.Failed? ==> Progress(block, ss, c, words[..], log, k, i, i)
        invariant result.Failed? ==> BackedOut(ss, c, k, i, rest, returnAddress) && k < |ss| && i <= ss[k].count
        invariant attempt <= attempts && calls >= old(calls)
        invariant Tally(outcomes, old(calls), calls, |log|, attempt, result, result.Failed? && ss[k].sectionType.Other?)
        decreases attempts - attempt
      {
        ghost var calls0, log0, was, k0 := calls, log, result, k;
        var address: int, return': int := *, *;
        Move(address, return', ss, c, k, i, rest, returnAddress);
        result, k, i := Restart(block, ss, c, k, i, rest, return');
        TallyNext(outcomes, old(calls), calls0, calls, |log0|, |log| - |log0|, attempt, was,
                  ss[k0].sectionType.Other?, result, result.Failed? && ss[k].sectionType.Other?);
        attempt := attempt + 1;
      }
      if result.PrimDone? { k, i := |ss|, 0; }
    }
  }

  lemma TallyMeans(outcomes: nat -> Outcome, from: nat, end: nat, linked: int, attempt: nat, result: Outcome,
                   unknown: bool)
    requires Tally(outcomes, from, end, linked, attempt, result, unknown) && linked >= 0
    ensures var failed := set j | from <= j < end && outcomes(j).Failed?;
      && end == from + linked + |failed|
      && (result.PrimDone? ==> |failed| <= attempt)
      && (result.Failed? ==>
            if unknown then result == Failed(ERR_COMPILED_CODE_ERROR)
            else |failed| == attempt + 1 && end > 0 && result == outcomes(end - 1))
  {
  }

  /** Either all sections are linked, or k of them and i entries of the next. */
  ghost predicate LinkedTo(block: seq<Word>, ss: seq<Section>, c: nat, words: seq<Word>, log: seq<Linked>, k: nat,
                           i: nat)
  {
    if k == |ss| then i == 0 && AllLinked(block, ss, c, words, log) else Progress(block, ss, c, words, log, k, i, i)
  }

  lemma RunLog(block: seq<Word>, ss: seq<Section>, c: nat, words: seq<Word>, log: seq<Linked>, k: nat, i: nat,
               starts: seq<nat>, firsts: seq<nat>)
    requires LinkedTo(block, ss, c, words, log, k, i) && |starts| == |firsts| == |ss| + 1
    requires forall k | 0 <= k <= |ss| :: starts[k] == Start(ss, c, k) && firsts[k] == Entries(ss, k)
    ensures |log| == firsts[k] + i
    ensures forall j: nat, n: nat {:trigger firsts[j], log[n]} |
                  j < |ss| && firsts[j] <= n < firsts[j] + ss[j].count && n < |log| ::
              var offset := starts[j] + EntryOffset(ss[j].sectionType, n - firsts[j]);
              offset < |block| && log[n] == Linked(ss[j].sectionType, block[offset], offset)
  {
    hide Start, EntryOffset, Entries, BlockLog, SectionLog, Untouched, HeadersCount, HeaderIs, Frontier;
    LogSize(block, ss, c, log, k, i);
    forall j: nat, n: nat {:trigger firsts[j], log[n]} | j < |ss| && firsts[j] <= n < firsts[j] + ss[j].count && n < |log|
      ensures var offset := starts[j] + EntryOffset(ss[j].sectionType, n - firsts[j]);
              offset < |block| && log[n] == Linked(ss[j].sectionType, block[offset], offset)
    {
      LogHas(block, ss, c, log, k, i, j, n);
    }
  }

  lemma RunWords(block: seq<Word>, ss: seq<Section>, c: nat, words: seq<Word>, log: seq<Linked>, k: nat, i: nat,
                 starts: seq<nat>)
    requires LinkedTo(block, ss, c, words, log, k, i) && |starts| == |ss| + 1
    requires forall k | 0 <= k <= |ss| :: starts[k] == Start(ss, c, k)
    ensures |words| == |block| && c <= |block|
    ensures forall j | 0 <= j < k :: starts[j] < |words| && words[starts[j]] == Marker(ss[j].sectionType, ss[j].count)
    ensures k < |ss| ==> starts[k] < |words| && words[starts[k]] == Marker(ss[k].sectionType, i)
    ensures forall p | 0 <= p < c :: words[p] == block[p]
    ensures forall p | (if k == |ss| then starts[k] else if i == 0 then starts[k] + 1
                        else starts[k] + EntryOffset(ss[k].sectionType, i)) <= p < |block| ::
              words[p] == block[p]
  {
    hide Start, EntryOffset, LoggedUpTo, BlockLog;
  }

  lemma HeaderNext(block: seq<Word>, ss: seq<Section>, c: nat, words: seq<Word>, log: seq<Linked>, k: nat)
    requires k < |ss| && Progress(block, ss, c, words, log, k, 0, ss[k].count)
    ensures Start(ss, c, k) < |words| && HeaderType(words[Start(ss, c, k)]) == ss[k].sectionType
    ensures HeaderCount(words[Start(ss, c, k)]) == ss[k].count
    ensures Frontier(ss, c, k, 0) == Start(ss, c, k) + 1
  {
    hide Start;
  }

  lemma NextStarts(ss: seq<Section>, c: nat, k: nat)
    requires Followable(ss) && k < |ss|
    ensures k + 1 < |ss| ==> Frontier(ss, c, k, ss[k].count) == Start(ss, c, k + 1)
  {
    SectionEnds(ss, c, k);
  }

  /** The word behind the header of a section without entries is as it was. */
  lemma BehindHeader(block: seq<Word>, ss: seq<Section>, c: nat, words: seq<Word>, log: seq<Linked>, k: nat, h: nat)
    requires Progress(block, ss, c, words, log, k, 0, h)
    ensures |words| == |block| && Frontier(ss, c, k, 0) == Start(ss, c, k) + 1
    ensures Start(ss, c, k) + 1 < |block| ==> words[Start(ss, c, k) + 1] == block[Start(ss, c, k) + 1]
  {
    hide Start;
  }

  lemma ProgressBound(block: seq<Word>, ss: seq<Section>, c: nat, words: seq<Word>, log: seq<Linked>, k: nat,
                      i: nat, h: nat)
    requires Progress(block, ss, c, words, log, k, i, h)
    ensures i <= ss[k].count
  {
  }

  lemma FirstEntry(t: SectionType)
    ensures EntryOffset(t, 0) == 1 + Relocation(t)
    ensures t.Execute() ==> Relocation(t) == OPERATOR_RELOCATION_OFFSET
    ensures !t.Execute() ==> Relocation(t) == 0
  {
  }

  lemma NextEntry(t: SectionType, i: nat)
    ensures EntryOffset(t, i + 1) == EntryOffset(t, i) + EntrySize(t)
  {
  }

  /** The next entry is inside the block and still as it was. */
  lemma EntryWithin(block: seq<Word>, ss: seq<Section>, c: nat, words: seq<Word>, log: seq<Linked>, k: nat, i: nat,
                    h: nat)
    requires Progress(block, ss, c, words, log, k, i, h) && i < ss[k].count
    ensures Start(ss, c, k) + EntryOffset(ss[k].sectionType, i) + EntrySize(ss[k].sectionType) <= |words|
    ensures words[Start(ss, c, k) + EntryOffset(ss[k].sectionType, i)]
      == block[Start(ss, c, k) + EntryOffset(ss[k].sectionType, i)]
  {
    Fits(ss[k], i);
    NextOffset(ss, c, k, i);
  }
}
