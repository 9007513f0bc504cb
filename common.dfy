/** Shared vocabulary of the entity finder: bytes, optional values, results of
    library calls, the reasons the program stops, and the trace of what it printed. */
module Common {

  /** A Go `byte`. */
  newtype byte = x: int | 0 <= x < 256

  datatype Option<+T> = None | Some(value: T)

  /** The (value, error) pair a Go library call returns, seen as one value. */
  datatype Result<+T, +E> = Ok(value: T) | Err(error: E)

  /** Everything that ends a run. The program has no recovery: a non-nil error
      reaching `checkErr` and an out-of-range slice or index both panic. */
  datatype Failure =
    | OpenFailed(message: string)        // region.Open returned an error
    | ReadSectorFailed(message: string)  // region.ReadSector returned an error
    | PayloadEmpty                       // data[1:] on an empty sector payload
    | UnknownCompression                 // the scheme byte is neither 1 nor 2
    | NewReaderFailed(message: string)   // gzip.NewReader or zlib.NewReader failed
    | DecodeFailed(message: string)      // the NBT decoder returned an error
    | PosOutOfRange                      // Pos[0], Pos[1] or Pos[2] of a short Pos list

  /** What a run has done: the records it printed, in order, and the failure
      that stopped it, if any. Lines printed before a panic stay printed. */
  datatype Trace<T> = Trace(out: seq<T>, failure: Option<Failure>)

  function Done<T>(): Trace<T> { Trace([], None) }

  function Abort<T>(f: Failure): Trace<T> { Trace([], Some(f)) }

  /** Running `t` and then, only if `t` did not fail, running `u`. */
  function Then<T>(t: Trace<T>, u: Trace<T>): (r: Trace<T>)
    ensures t.failure.Some? ==> r == t
    ensures t.failure.None? ==> r.out == t.out + u.out && r.failure == u.failure
  {
    if t.failure.Some? then t else Trace(t.out + u.out, u.failure)
  }

  lemma ThenDone<T>(t: Trace<T>)
    ensures Then(Done(), t) == t
    ensures Then(t, Done()) == t
  {
    assert [] + t.out == t.out;
    assert t.out + [] == t.out;
  }

  lemma ThenAssociative<T>(a: Trace<T>, b: Trace<T>, c: Trace<T>)
    ensures Then(Then(a, b), c) == Then(a, Then(b, c))
  {
    if a.failure.None? && b.failure.None? {
      assert (a.out + b.out) + c.out == a.out + (b.out + c.out);
    }
  }
}
