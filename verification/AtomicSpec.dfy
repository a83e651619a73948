/** One word of the width of int, size_t or a pointer, and the operations the atomic interface offers on it. */
module AtomicSpec {
  import opened Residues

  /** 2 to the power of the word's width. */
  type Modulus = m: int | 2 <= m witness 2

  /** A word holds a residue; a signed int is the same residue read as two's complement. */
  datatype Word = Word(modulus: Modulus, bits: int)

  datatype Op =
    | Incr
    | Decr
    | Add(delta: int)
    | Sub(delta: int)
    | CompareAndSwap(oldval: int, newval: int)
    | Set(newval: int)
    | Get
  {
    /** Implemented as a load and a store under the lock. */
    predicate ReadModifyWrite() {
      !Set? && !Get?
    }

    /** Changes the word by a fixed amount, or only reads it. */
    predicate Counts() {
      Incr? || Decr? || Add? || Sub? || Get?
    }

    function Delta(): int {
      match this
      case Incr => 1
      case Decr => -1
      case Add(d) => d
      case Sub(d) => -d
      case _ => 0
    }
  }

  datatype Ret = Value(v: int) | Unit

  /** The sequential word. */
  function Apply(w: Word, op: Op): (Word, Ret)
  {
    match op
    case CompareAndSwap(oldval, newval) =>
      if w.bits == Wrap(oldval, w.modulus) then (w.(bits := Wrap(newval, w.modulus)), Value(w.bits))
      else (w, Value(w.bits))
    case Set(newval) => (w.(bits := Wrap(newval, w.modulus)), Unit)
    case Get => (w, Value(w.bits))
    case _ => var bits := Wrap(w.bits + op.Delta(), w.modulus); (w.(bits := bits), Value(bits))
  }
}
