/**
 Argument frames for compiled procedures, from src/microcode/cmpint.c: gaps opened in the stack, default objects filled
 in, surplus arguments put in a list. The stack grows towards lower addresses, so its top is the word at sp.
 */
module Frames {
  datatype Object = Datum(n: int) | DefaultObject | EmptyList | Pair(address: int) | FrameHeader(words: nat)

  /** What an entry says about the arguments it takes. */
  datatype EntryType = Unreadable | NotProcedure | Procedure(required: nat, optional: nat, rest: bool)

  datatype Code = PrimDone | CompiledCodeError | InapplicableObject | WrongNumberOfArguments | ApplyInterrupt

  // ----- what a frame should be -----

  function Defaults(n: nat): (r: seq<Object>)
    ensures |r| == n && forall i | 0 <= i < n :: r[i] == DefaultObject
  {
    seq(n, _ => DefaultObject)
  }

  /** The frame of n arguments made into one of max by default objects. */
  function Defaulted(args: seq<Object>, max: nat): (r: seq<Object>)
    requires |args| <= max
    ensures |r| == max && r[..|args|] == args && forall i | |args| <= i < max :: r[i] == DefaultObject
  {
    args + Defaults(max - |args|)
  }

  /** The object is a list of the items, in pairs at and after some address. */
  ghost predicate IsList(heap: seq<Object>, x: Object, items: seq<Object>)
    decreases items
  {
    if items == [] then
      x == EmptyList
    else
      && x.Pair? && 0 <= x.address && x.address + 1 < |heap| && heap[x.address] == items[0]
      && IsList(heap, heap[x.address + 1], items[1..])
  }

  /** Pairs laid out one after the other, each with the address of the next. */
  ghost predicate PairsFrom(heap: seq<Object>, start: nat, items: seq<Object>) {
    && start + 2 * |items| <= |heap|
    && forall j | 0 <= j < |items| ::
      heap[start + 2 * j] == items[j]
      && heap[start + 2 * j + 1] == if j + 1 < |items| then Pair(start + 2 * j + 2) else EmptyList
  }

  lemma {:induction false} PairsAreList(heap: seq<Object>, start: nat, items: seq<Object>)
    requires items != [] && PairsFrom(heap, start, items)
    ensures IsList(heap, Pair(start), items)
    decreases items
  {
    assert heap[start + 2 * 0] == items[0];
    var rest := items[1..];
    assert heap[start + 1] == heap[start + 2 * 0 + 1];
    if rest != [] {
      forall j | 0 <= j < |rest|
        ensures heap[start + 2 + 2 * j] == rest[j]
        ensures heap[start + 2 + 2 * j + 1] == if j + 1 < |rest| then Pair(start + 2 + 2 * j + 2) else EmptyList
      {
        var i := j + 1;
        assert heap[start + 2 * i] == items[i];
        assert heap[start + 2 * i + 1] == if i + 1 < |items| then Pair(start + 2 * i + 2) else EmptyList;
      }
      PairsAreList(heap, start + 2, rest);
    }
  }

  /** A list stays the same list while the heap only grows. */
  lemma {:induction false} ListStays(heap: seq<Object>, heap': seq<Object>, x: Object, items: seq<Object>)
    requires heap <= heap' && IsList(heap, x, items)
    ensures IsList(heap', x, items)
    decreases items
  {
    if items != [] { ListStays(heap, heap', heap[x.address + 1], items[1..]); }
  }

  lemma ListsStay(heap: seq<Object>, heap': seq<Object>)
    requires heap <= heap'
    ensures forall x, items | IsList(heap, x, items) :: IsList(heap', x, items)
  {
    hide IsList;
    forall x, items | IsList(heap, x, items) ensures IsList(heap', x, items) {
      ListStays(heap, heap', x, items);
    }
  }

  // ----- which trampoline calls a procedure -----

  datatype TrampolineKind = KApply | K1_0 | K2_0 | K2_1 | K3_0 | K3_1 | K3_2 | K4_0 | K4_1 | K4_2 | K4_3 {
    function Needed(): nat {
      match this
      case KApply => 0
      case K1_0 => 1
      case K2_0 => 2
      case K2_1 => 2
      case K3_0 => 3
      case K3_1 => 3
      case K3_2 => 3
      case K4_0 => 4
      case K4_1 => 4
      case K4_2 => 4
      case K4_3 => 4
    }

    function Given(): nat {
      match this
      case KApply => 0
      case K1_0 => 0
      case K2_0 => 0
      case K2_1 => 1
      case K3_0 => 0
      case K3_1 => 1
      case K3_2 => 2
      case K4_0 => 0
      case K4_1 => 1
      case K4_2 => 2
      case K4_3 => 3
    }
  }

  const TRAMPOLINE_TABLE_SIZE := 4

  const TRAMPOLINE_ARITY_TABLE := [
    K1_0, KApply, KApply, KApply,
    K2_0, K2_1, KApply, KApply,
    K3_0, K3_1, K3_2, KApply,
    K4_0, K4_1, K4_2, K4_3
  ]

  /** How a call with nargs arguments reaches a compiled procedure. */
  datatype LinkChoice = LinkError | Direct | Redirect(kind: TrampolineKind) | Apply

  function ChooseLink(t: EntryType, nargs: nat): LinkChoice {
    if !t.Procedure? then LinkError
    else
      var nmin, nmax := t.required, t.required + t.optional;
      if t.rest then Apply
      else if nargs == nmax then Direct
      else if nargs < nmax && nargs >= nmin && nmin < nmax && nmax <= TRAMPOLINE_TABLE_SIZE then
        Redirect(TRAMPOLINE_ARITY_TABLE[(nmax - 1) * TRAMPOLINE_TABLE_SIZE + nargs])
      else Apply
  }

  /** A trampoline is chosen only for calls it makes good: those of that many arguments with that many needed. */
  lemma ChosenTrampolineFits(t: EntryType, nargs: nat)
    ensures var c := ChooseLink(t, nargs);
      && (c.LinkError? <==> !t.Procedure?)
      && (c.Direct? <==> t.Procedure? && !t.rest && nargs == t.required + t.optional)
      && (c.Redirect? ==> c.kind != KApply && t.Procedure? && !t.rest && t.required <= nargs
                          && c.kind.Given() == nargs < c.kind.Needed() == t.required + t.optional)
  {
    if ChooseLink(t, nargs).Redirect? {
      var nmax := t.required + t.optional;
      assert 1 <= nmax <= 4;
      if nmax == 1 {
        assert nargs == 0;
      } else if nmax == 2 {
        assert nargs == 0 || nargs == 1;
      } else if nmax == 3 {
        assert nargs == 0 || nargs == 1 || nargs == 2;
      } else {
        assert nargs == 0 || nargs == 1 || nargs == 2 || nargs == 3;
      }
    }
  }

  /** And for all of those, up to the size of the table. */
  lemma TrampolineWhenever(t: EntryType, nargs: nat)
    ensures ChooseLink(t, nargs).Redirect? <==>
              t.Procedure? && !t.rest && t.required <= nargs < t.required + t.optional <= 4
  {
  }

  lemma GapOpened<T>(was: seq<T>, now: seq<T>, sp: nat, offset: nat, nWords: nat)
    requires |now| == |was| && sp + offset <= |was| && nWords <= sp
    requires forall k | sp <= k < sp + offset :: now[k - nWords] == was[k]
    requires forall k | sp + offset <= k < |was| :: now[k] == was[k]
    ensures now[sp - nWords..][..offset] == was[sp..][..offset]
    ensures now[sp - nWords..][offset + nWords..] == was[sp..][offset..]
  {
    var a, b := now[sp - nWords..][..offset], was[sp..][..offset];
    forall j | 0 <= j < offset
      ensures a[j] == b[j]
    {
      assert a[j] == now[sp + j - nWords];
    }
  }

  class Machine {
    const stack: array<Object>
    var sp: nat
    /** Below the guard an interrupt is pending; there is room for a few more words. */
    const guard: nat
    const heap: array<Object>
    /** The heap is in use below free, and may be used below the limit. */
    var free: nat
    const heapAllocLimit: nat
    var interruptPending: bool
    var gcSpaceNeeded: nat

    ghost predicate Valid()
      reads this
    {
      stack != heap && sp <= stack.Length && guard >= 2 && free <= heap.Length && heapAllocLimit <= heap.Length
    }

    constructor (stackSize: nat, heapSize: nat, stackGuard: nat, limit: nat)
      requires stackGuard >= 2 && limit <= heapSize
      ensures Valid() && fresh(stack) && fresh(heap) && sp == stack.Length && free == 0
    {
      stack := new Object[stackSize](_ => EmptyList);
      heap := new Object[heapSize](_ => EmptyList);
      sp, free, guard, heapAllocLimit := stackSize, 0, stackGuard, limit;
      interruptPending, gcSpaceNeeded := false, 0;
    }

    /** The words on the stack, the top first. */
    function Contents(): seq<Object>
      requires sp <= stack.Length
      reads this, stack
    {
      stack[sp..]
    }

    method Push(x: Object)
      requires Valid() && sp > 0
      modifies `sp, stack
      ensures Valid() && sp == old(sp) - 1 && Contents() == [x] + old(Contents())
    {
      sp := sp - 1;
      stack[sp] := x;
      assert stack[sp + 1..] == old(stack[sp..]);
    }

    method Pop() returns (x: Object)
      requires Valid() && Contents() != []
      modifies `sp
      ensures Valid() && sp == old(sp) + 1 && x == old(Contents())[0] && Contents() == old(Contents())[1..]
    {
      x := stack[sp];
      sp := sp + 1;
    }

    /** Moves the top words down, leaving room for nWords below them. */
    method OpenStackGap(offset: nat, nWords: nat)
      requires Valid() && sp + offset <= stack.Length && nWords <= sp
      modifies `sp, stack
      ensures Valid() && sp == old(sp) - nWords
      ensures Contents()[..offset] == old(Contents())[..offset]
      ensures Contents()[offset + nWords..] == old(Contents())[offset..]
    {
      ghost var was := stack[..];
      var scanFrom, scanEnd, scanTo := sp, sp + offset, sp - nWords;
      while scanFrom != scanEnd
        invariant sp <= scanFrom <= scanEnd && scanTo == scanFrom - nWords
        invariant forall k | sp <= k < scanFrom :: stack[k - nWords] == was[k]
        invariant forall k | scanFrom <= k < stack.Length :: stack[k] == was[k]
        modifies stack
        decreases scanEnd - scanFrom
      {
        stack[scanTo] := stack[scanFrom];
        scanTo, scanFrom := scanTo + 1, scanFrom + 1;
      }
      GapOpened(was, stack[..], sp, offset, nWords);
      sp := sp - nWords;
    }

    /** Moves the top words up, over nWords below them. */
    method CloseStackGap(offset: nat, nWords: nat)
      requires Valid() && sp + offset + nWords <= stack.Length
      modifies `sp, stack
      ensures Valid() && sp == old(sp) + nWords
      ensures Contents() == old(Contents())[..offset] + old(Contents())[offset + nWords..]
    {
      ghost var contents, from := Contents(), sp + offset;
      assert stack[from - offset..from] == contents[..offset];
      assert stack[from + nWords..] == contents[offset + nWords..];
      MoveUp(sp + offset, sp + offset + nWords, offset);
      sp := sp + nWords;
      assert Contents() == stack[sp..sp + offset] + stack[sp + offset..];
    }

    /** Moves the count words below address from up to below address to, the highest first. */
    method MoveUp(from: nat, to: nat, count: nat)
      requires Valid() && count <= from <= to <= stack.Length
      modifies stack
      ensures stack[to - count..to] == old(stack[from - count..from])
      ensures stack[..from - count] == old(stack[..from - count]) && stack[to..] == old(stack[to..])
    {
      ghost var was := stack[..];
      var scanFrom, scanTo, i := from, to, 0;
      while i < count
        invariant 0 <= i <= count && scanFrom == from - i && scanTo == to - i
        invariant stack[scanTo..to] == was[scanFrom..from]
        invariant stack[..scanFrom] == was[..scanFrom] && stack[to..] == was[to..]
      {
        ghost var moved, above := stack[scanTo..to], stack[to..];
        scanTo, scanFrom := scanTo - 1, scanFrom - 1;
        assert stack[scanFrom] == stack[..scanFrom + 1][scanFrom] == was[scanFrom];
        ghost var below := stack[..scanFrom];
        assert below == was[..scanFrom + 1][..scanFrom];
        stack[scanTo] := stack[scanFrom];
        assert stack[scanTo..to] == [stack[scanTo]] + moved;
        assert stack[..scanFrom] == below && stack[to..] == above;
        i := i + 1;
      }
      assert was[..scanFrom] == old(stack[..from - count]);
    }

    /** Requests an interrupt when there is no room for n more words. */
    method StackCheck(n: nat)
      modifies `interruptPending
      ensures interruptPending <==> old(interruptPending) || sp < guard + n
    {
      if sp < guard + n { interruptPending := true; }
    }

    method OpenGap(nArgs: nat, nNeeded: nat) returns (interrupted: bool)
      requires Valid() && nArgs <= nNeeded && nArgs <= |Contents()|
      modifies `sp, stack, `interruptPending
      ensures Valid() && interrupted == interruptPending
      ensures interrupted <==> old(interruptPending) || old(sp) < guard + (nNeeded - nArgs)
      ensures interrupted ==> sp == old(sp) && Contents() == old(Contents())
      ensures !interrupted ==> sp == old(sp) - (nNeeded - nArgs)
      ensures !interrupted ==> Contents() == Defaulted(old(Contents())[..nArgs], nNeeded) + old(Contents())[nArgs..]
    {
      var nDefaults := nNeeded - nArgs;
      StackCheck(nDefaults);
      if interruptPending { return true; }
      ghost var was := Contents();
      OpenStackGap(nArgs, nDefaults);
      ghost var gapped := Contents();
      FillDefaults(sp + nArgs, sp + nNeeded);
      assert gapped == gapped[..nArgs] + gapped[nArgs..nNeeded] + gapped[nNeeded..];
      assert Contents() == gapped[..nArgs] + Defaults(nDefaults) + gapped[nNeeded..];
      interrupted := false;
    }

    method FillDefaults(from: nat, end: nat)
      requires Valid() && sp <= from <= end <= stack.Length
      modifies stack
      ensures Contents() == old(Contents())[..from - sp] + Defaults(end - from) + old(Contents())[end - sp..]
    {
      ghost var was := stack[..];
      var scan := from;
      while scan != end
        invariant from <= scan <= end
        invariant stack[..] == was[..from] + Defaults(scan - from) + was[scan..]
        modifies stack
        decreases end - scan
      {
        ghost var now := stack[..];
        stack[scan] := DefaultObject;
        assert stack[..] == now[scan := DefaultObject];
        assert Defaults(scan + 1 - from) == Defaults(scan - from) + [DefaultObject];
        assert now[scan := DefaultObject] == was[..from] + Defaults(scan + 1 - from) + was[scan + 1..];
        scan := scan + 1;
      }
      assert stack[sp..] == stack[..][sp..];
    }

    /** Puts the procedure and a frame header on top of the arguments, for the interpreter. */
    method RecoverFromApplyError(procedure: Object, nArgs: nat)
      requires Valid() && sp >= 2
      modifies `sp, stack
      ensures Valid() && Contents() == [FrameHeader(nArgs + 1), procedure] + old(Contents())
    {
      Push(procedure);
      Push(FrameHeader(nArgs + 1));
    }

    /** Conses the arguments from nMax on into a list. */
    method ConsSurplus(nArgs: nat, nMax: nat)
      requires Valid() && nMax < nArgs <= |Contents()| && 2 * (nArgs - nMax) <= heap.Length - free
      modifies `free, heap
      ensures Valid() && old(heap[..free]) <= heap[..free] && free == old(free) + 2 * (nArgs - nMax)
      ensures forall j | 0 <= j < nArgs - nMax ::
                && heap[old(free) + 2 * j] == Contents()[nMax + j]
                && heap[old(free) + 2 * j + 1] == if j + 1 < nArgs - nMax then Pair(old(free) + 2 * j + 2) else EmptyList
      ensures IsList(heap[..free], Pair(old(free)), Contents()[nMax..nArgs])
    {
      ghost var items := Contents()[nMax..nArgs];
      ghost var start := free;
      var p1 := sp + nMax;
      var i := nMax;
      while i < nArgs
        invariant nMax <= i <= nArgs && p1 == sp + i && free == start + 2 * (i - nMax)
        invariant heap[..start] == old(heap[..free])
        invariant forall j | 0 <= j < i - nMax ::
          heap[start + 2 * j] == items[j] && heap[start + 2 * j + 1] == Pair(start + 2 * j + 2)
        modifies `free, heap
      {
        heap[free] := stack[p1];
        p1 := p1 + 1;
        heap[free + 1] := Pair(free + 2);
        free := free + 2;
        i := i + 1;
      }
      heap[free - 1] := EmptyList;
      assert PairsFrom(heap[..free], start, items);
      PairsAreList(heap[..free], start, items);
    }

    /** The surplus arguments become a list, and the others move up over them. */
    method ListSurplus(nArgs: nat, nMax: nat)
      requires Valid() && nMax < nArgs <= |Contents()| && 2 * (nArgs - nMax) <= heap.Length - free
      modifies `sp, `free, stack, heap
      ensures Valid() && old(heap[..free]) <= heap[..free] && free == old(free) + 2 * (nArgs - nMax)
      ensures Contents() == old(Contents())[..nMax] + [Pair(old(free))] + old(Contents())[nArgs..]
      ensures IsList(heap[..free], Pair(old(free)), old(Contents())[nMax..nArgs])
    {
      hide IsList;
      var restArg := Pair(free);
      ConsSurplus(nArgs, nMax);
      MoveOverList(nArgs, nMax, restArg);
    }

    method MoveOverList(nArgs: nat, nMax: nat, restArg: Object)
      requires Valid() && nMax < nArgs <= |Contents()|
      modifies `sp, stack
      ensures Valid() && Contents() == old(Contents())[..nMax] + [restArg] + old(Contents())[nArgs..]
    {
      ghost var was := Contents();
      var p1 := sp + nArgs - 1;
      stack[p1] := restArg;
      ghost var now := Contents();
      assert now == was[nArgs - 1 := restArg];
      MoveUp(sp + nMax, p1, nMax);
      assert stack[p1 - nMax..p1] == now[..nMax] && stack[p1..] == now[nArgs - 1..];
      sp := p1 - nMax;
      ghost var st := stack[..];
      assert st[sp..p1] == stack[sp..p1] && st[p1..] == stack[p1..] && st[sp..] == Contents();
      Joined(st, sp, p1);
      OverList(was, restArg, nMax, nArgs);
    }

    method SetupLexprInvocation(procedure: Object, nArgs: nat, nMax: nat) returns (code: Code)
      requires Valid() && nArgs <= |Contents()| && sp >= 2
      modifies `sp, `free, `interruptPending, `gcSpaceNeeded, stack, heap
      ensures Valid() && code in {PrimDone, ApplyInterrupt}
      ensures code == ApplyInterrupt <==>
                if nArgs <= nMax then old(interruptPending) || old(sp) < guard + (nMax + 1 - nArgs)
                else old(free) + 2 * (nArgs - nMax) > heapAllocLimit
      ensures code == ApplyInterrupt ==> interruptPending
      ensures code == ApplyInterrupt ==> Contents() == [FrameHeader(nArgs + 1), procedure] + old(Contents())
      ensures code == PrimDone && nArgs <= nMax ==>
        Contents() == Defaulted(old(Contents())[..nArgs], nMax) + [EmptyList] + old(Contents())[nArgs..]
      ensures code == PrimDone && nArgs > nMax ==>
        Contents() == old(Contents())[..nMax] + [Pair(old(free))] + old(Contents())[nArgs..]
        && IsList(heap[..free], Pair(old(free)), old(Contents())[nMax..nArgs])
      ensures free == old(free) + if code == PrimDone && nArgs > nMax then 2 * (nArgs - nMax) else 0
      ensures old(heap[..free]) <= heap[..free]
    {
      hide IsList;
      ghost var was := Contents();
      if nArgs <= nMax {
        var interrupted := OpenGap(nArgs, nMax + 1);
        if interrupted {
          RecoverFromApplyError(procedure, nArgs);
          return ApplyInterrupt;
        }
        ghost var frame := Contents();
        EmptyRest(was[..nArgs], nMax, was[nArgs..], frame);
        stack[sp + nMax] := EmptyList;
        assert Contents() == frame[nMax := EmptyList];
        return PrimDone;
      }
      var nWords := (nArgs - nMax) * 2;
      if free + nWords > heapAllocLimit {
        interruptPending, gcSpaceNeeded := true, nWords;
        RecoverFromApplyError(procedure, nArgs);
        return ApplyInterrupt;
      }
      ListSurplus(nArgs, nMax);
      code := PrimDone;
    }

    /**
     For every number of arguments: the frame, or the arguments as they were and an error. Only a frame that must grow
     without room on the stack or with an interrupt pending, and a rest list without room in the heap, are put off.
     */
    method SetupCompiledInvocation(procedure: Object, t: EntryType, nArgs: nat) returns (code: Code)
      requires Valid() && nArgs <= |Contents()| && sp >= 2
      modifies `sp, `free, `interruptPending, `gcSpaceNeeded, stack, heap
      ensures Valid()
      ensures t.Unreadable? <==> code == CompiledCodeError
      ensures t.NotProcedure? <==> code == InapplicableObject
      ensures code == WrongNumberOfArguments <==>
                t.Procedure? && (nArgs < t.required || (!t.rest && nArgs > t.required + t.optional))
      ensures code == ApplyInterrupt <==>
                && t.Procedure? && t.required <= nArgs && (t.rest || nArgs <= t.required + t.optional)
                && var nMax := t.required + t.optional;
                if nArgs > nMax then old(free) + 2 * (nArgs - nMax) > heapAllocLimit
                else var nDefaults := nMax - nArgs + if t.rest then 1 else 0;
                     nDefaults > 0 && (old(interruptPending) || old(sp) < guard + nDefaults)
      ensures code != PrimDone ==> Contents() == [FrameHeader(nArgs + 1), procedure] + old(Contents())
      ensures code == PrimDone && !t.rest ==>
        Contents() == Defaulted(old(Contents())[..nArgs], t.required + t.optional) + old(Contents())[nArgs..]
      ensures code == PrimDone && t.rest && nArgs <= t.required + t.optional ==>
        Contents() == Defaulted(old(Contents())[..nArgs], t.required + t.optional) + [EmptyList]
          + old(Contents())[nArgs..]
      ensures code == PrimDone && t.rest && nArgs > t.required + t.optional ==>
        Contents() == old(Contents())[..t.required + t.optional] + [Pair(old(free))] + old(Contents())[nArgs..]
        && IsList(heap[..free], Pair(old(free)), old(Contents())[t.required + t.optional..nArgs])
      ensures free == old(free) + if code == PrimDone && nArgs > t.required + t.optional
                                  then 2 * (nArgs - (t.required + t.optional)) else 0
      ensures forall x, items | IsList(old(heap[..free]), x, items) :: IsList(heap[..free], x, items)
    {
      hide IsList;
      ghost var h := heap[..free];
      if t.Unreadable? {
        RecoverFromApplyError(procedure, nArgs);
        return CompiledCodeError;
      }
      if t.NotProcedure? {
        RecoverFromApplyError(procedure, nArgs);
        return InapplicableObject;
      }
      var nMin := t.required;
      if nArgs < nMin {
        RecoverFromApplyError(procedure, nArgs);
        return WrongNumberOfArguments;
      }
      var nMax := nMin + t.optional;
      if t.rest {
        code := SetupLexprInvocation(procedure, nArgs, nMax);
        ListsStay(h, heap[..free]);
        return;
      }
      if nArgs == nMax {
        assert Contents() == Defaulted(Contents()[..nArgs], nMax) + Contents()[nArgs..];
        return PrimDone;
      }
      if nArgs > nMax {
        RecoverFromApplyError(procedure, nArgs);
        return WrongNumberOfArguments;
      }
      var interrupted := OpenGap(nArgs, nMax);
      if interrupted {
        RecoverFromApplyError(procedure, nArgs);
        return ApplyInterrupt;
      }
      code := PrimDone;
    }

    // ----- trampolines that fill in defaults -----

    method Operator1_0Trap()
      requires Valid() && sp >= 1
      modifies `sp, stack
      ensures Valid() && Contents() == Defaulted(old(Contents())[..0], 1) + old(Contents())[0..]
    {
      hide Contents;
      assert Defaults(1) == [DefaultObject];
      Push(DefaultObject);
    }

    method Operator2_0Trap()
      requires Valid() && sp >= 2
      modifies `sp, stack
      ensures Valid() && Contents() == Defaulted(old(Contents())[..0], 2) + old(Contents())[0..]
    {
      hide Contents;
      assert Defaults(2) == [DefaultObject, DefaultObject];
      Push(DefaultObject);
      Push(DefaultObject);
    }

    method Operator2_1Trap()
      requires Valid() && sp >= 1 && 1 <= |Contents()|
      modifies `sp, stack
      ensures Valid() && Contents() == Defaulted(old(Contents())[..1], 2) + old(Contents())[1..]
    {
      hide Contents;
      assert Defaults(1) == [DefaultObject];
      var a1 := Pop();
      Push(DefaultObject);
      Push(a1);
    }

    method Operator3_0Trap()
      requires Valid() && sp >= 3
      modifies `sp, stack
      ensures Valid() && Contents() == Defaulted(old(Contents())[..0], 3) + old(Contents())[0..]
    {
      hide Contents;
      assert Defaults(3) == [DefaultObject, DefaultObject, DefaultObject];
      Push(DefaultObject);
      Push(DefaultObject);
      Push(DefaultObject);
    }

    method Operator3_1Trap()
      requires Valid() && sp >= 2 && 1 <= |Contents()|
      modifies `sp, stack
      ensures Valid() && Contents() == Defaulted(old(Contents())[..1], 3) + old(Contents())[1..]
    {
      hide Contents;
      assert Defaults(2) == [DefaultObject, DefaultObject];
      var a1 := Pop();
      Push(DefaultObject);
      Push(DefaultObject);
      Push(a1);
    }

    method Operator3_2Trap()
      requires Valid() && sp >= 1 && 2 <= |Contents()|
      modifies `sp, stack
      ensures Valid() && Contents() == Defaulted(old(Contents())[..2], 3) + old(Contents())[2..]
    {
      hide Contents;
      assert Defaults(1) == [DefaultObject];
      var a1 := Pop();
      var a2 := Pop();
      Push(DefaultObject);
      Push(a2);
      Push(a1);
    }

    method Operator4_0Trap()
      requires Valid() && sp >= 4
      modifies `sp, stack
      ensures Valid() && Contents() == Defaulted(old(Contents())[..0], 4) + old(Contents())[0..]
    {
      hide Contents;
      assert Defaults(4) == [DefaultObject, DefaultObject, DefaultObject, DefaultObject];
      Push(DefaultObject);
      Push(DefaultObject);
      Push(DefaultObject);
      Push(DefaultObject);
    }

    method Operator4_1Trap()
      requires Valid() && sp >= 3 && 1 <= |Contents()|
      modifies `sp, stack
      ensures Valid() && Contents() == Defaulted(old(Contents())[..1], 4) + old(Contents())[1..]
    {
      hide Contents;
      assert Defaults(3) == [DefaultObject, DefaultObject, DefaultObject];
      var a1 := Pop();
      Push(DefaultObject);
      Push(DefaultObject);
      Push(DefaultObject);
      Push(a1);
    }

    method Operator4_2Trap()
      requires Valid() && sp >= 2 && 2 <= |Contents()|
      modifies `sp, stack
      ensures Valid() && Contents() == Defaulted(old(Contents())[..2], 4) + old(Contents())[2..]
    {
      hide Contents;
      assert Defaults(2) == [DefaultObject, DefaultObject];
      var a1 := Pop();
      var a2 := Pop();
      Push(DefaultObject);
      Push(DefaultObject);
      Push(a2);
      Push(a1);
    }

    method Operator4_3Trap()
      requires Valid() && sp >= 1 && 3 <= |Contents()|
      modifies `sp, stack
      ensures Valid() && Contents() == Defaulted(old(Contents())[..3], 4) + old(Contents())[3..]
    {
      hide Contents;
      assert Defaults(1) == [DefaultObject];
      var a1 := Pop();
      var a2 := Pop();
      var a3 := Pop();
      Push(DefaultObject);
      Push(a3);
      Push(a2);
      Push(a1);
    }

    /** The trampoline for m arguments where n are needed. */
    method Trampoline(kind: TrampolineKind)
      requires Valid() && kind.Needed() > kind.Given() && kind.Given() <= |Contents()|
      requires sp >= kind.Needed() - kind.Given()
      modifies `sp, stack
      ensures Valid()
      ensures Contents() == Defaulted(old(Contents())[..kind.Given()], kind.Needed()) + old(Contents())[kind.Given()..]
    {
      match kind
      case KApply =>
      case K1_0 => Operator1_0Trap();
      case K2_0 => Operator2_0Trap();
      case K2_1 => Operator2_1Trap();
      case K3_0 => Operator3_0Trap();
      case K3_1 => Operator3_1Trap();
      case K3_2 => Operator3_2Trap();
      case K4_0 => Operator4_0Trap();
      case K4_1 => Operator4_1Trap();
      case K4_2 => Operator4_2Trap();
      case K4_3 => Operator4_3Trap();
    }
  }

  lemma Joined(s: seq<Object>, from: nat, at: nat)
    requires from <= at <= |s|
    ensures s[from..] == s[from..at] + s[at..]
  {
  }

  lemma OverList(was: seq<Object>, restArg: Object, nMax: nat, nArgs: nat)
    requires nMax < nArgs <= |was|
    ensures var now := was[nArgs - 1 := restArg];
      now[..nMax] + now[nArgs - 1..] == was[..nMax] + [restArg] + was[nArgs..]
  {
  }

  /** One default object too many, and the empty list in its place. */
  lemma EmptyRest(args: seq<Object>, max: nat, below: seq<Object>, frame: seq<Object>)
    requires |args| <= max && frame == Defaulted(args, max + 1) + below
    ensures |frame| > max && frame[max := EmptyList] == Defaulted(args, max) + [EmptyList] + below
  {
    assert Defaults(max + 1 - |args|) == Defaults(max - |args|) + [DefaultObject];
  }
}
