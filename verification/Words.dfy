/** References: the two-bit tag scheme of data.h, one constructor per tag.
    Addresses count words. */
module Words {

  /** Fixnum (tag 0), immediate (tag 1), locative to one cell (tag 2), pointer to an object (tag 3). */
  datatype Word = Fix(n: int) | Imm(c: int) | Loc(a: int) | Ptr(a: int)
  {
    /** The PTR_MASK test: does the word hold an address? */
    predicate IsRef() { Loc? || Ptr? }

    /** `r | 1`, which turns a forwarding locative into the pointer it stands for. */
    function OrOne(): Word {
      match this
      case Loc(a) => Ptr(a)
      case Fix(n) => Imm(n)
      case _ => this
    }
  }
}
