/**
 Tagged words, as src/microcode/object.h lays them out: a type code and a datum.
 The type codes are grouped by what the collector does with them.
 */
module Objects {

  /** The collector's view of a type code. The `code` keeps apart the type codes of one group. */
  datatype Tag =
    | Immediate(code: nat)           // not a pointer
    | Tuple(words: nat, code: nat)   // cell, pair, triple or quadruple
    | Vector(code: nat)              // counted block with a manifest word in front
    | WeakCons
    | Ephemeron
    | BrokenHeart
    | ManifestNM                     // manifest of a block whose contents are not traced
  {
    predicate IsPointer() {
      Tuple? || Vector? || WeakCons? || Ephemeron?
    }
  }

  datatype Word = Word(tag: Tag, datum: nat)

  const TC_FALSE := Immediate(0)
  const TC_CONSTANT := Immediate(8)
  const TC_LIST := Tuple(2, 1)
  const TC_MANIFEST_VECTOR := TC_FALSE
  const TC_ENVIRONMENT := Vector(0x12)
  const TC_INTERNED_SYMBOL := Tuple(2, 0x1D)
  const TC_UNINTERNED_SYMBOL := Tuple(2, 0x05)
  const TC_REFERENCE_TRAP := Immediate(0x32)

  const SHARP_F := Word(TC_FALSE, 0)
  const GC_RECLAIMED := Word(TC_CONSTANT, 10)
  const BROKEN_HEART_ZERO := Word(BrokenHeart, 0)
  const UNBOUND_OBJECT := Word(TC_REFERENCE_TRAP, 1)

  // Slots of an ephemeron.
  const EPHEMERON_KEY := 1
  const EPHEMERON_DATUM := 2
  const EPHEMERON_LIST := 3
  const EPHEMERON_NEXT := 4
  const EPHEMERON_SIZE := 5

  const MARKED_EPHEMERON_MANIFEST := Word(TC_MANIFEST_VECTOR, 4)
  const UNMARKED_EPHEMERON_MANIFEST := Word(ManifestNM, 4)
}
