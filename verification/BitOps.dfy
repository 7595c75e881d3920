/** bitmap.c: testing, setting and clearing the bits of a word under a mask. */
module BitOps {
  import opened Words

  datatype RegOp = IsFree | Alloc | Release

  /** What an operation does to a bit, given whether the mask selects it. */
  ghost predicate After(op: RegOp, was: bool, selected: bool) {
    match op
    case IsFree => was
    case Alloc => was || selected
    case Release => was && !selected
  }

  /** The operation on the bits of a word that a mask selects. */
  function Applied(op: RegOp, w: Word, mask: Word): Word {
    match op
    case IsFree => w
    case Alloc => Or(w, mask)
    case Release => And(w, Not(mask))
  }

  lemma {:induction false} AppliedBit(op: RegOp, w: Word, mask: Word, j: nat)
    requires j < BITS
    ensures Bit(Applied(op, w, mask), j) == After(op, Bit(w, j), Bit(mask, j))
  {
    hide Bit, And, Or, Not;
    OrBit(w, mask, j);
    NotBit(mask, j);
    AndBit(w, Not(mask), j);
  }
}
