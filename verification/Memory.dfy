/** What decoding needs of the reader's memory: that what was there cannot show through. */
module Memory {
  import opened Bits
  import opened Schema

  ghost predicate Blank(mem: Bytes, i: int, j: int) {
    forall q :: 0 <= q < |mem| && i <= q < j ==> mem[q] == 0
  }

  ghost predicate SameOutside(a: Bytes, b: Bytes, i: int, j: int) {
    |a| == |b| && forall q :: 0 <= q < |a| && !(i <= q < j) ==> a[q] == b[q]
  }

  /** Decoding n bits at p gives a number that does not depend on what was there: on a big-endian
      host, for a complete C integer, or if nothing was there. */
  ghost predicate Receives(big: bool, n: nat, mem: Bytes, p: nat) {
    big || StandardWidth(n) || Blank(mem, p, p + StorageSize(n))
  }

  /** Every scalar of a type at p gets a number that does not depend on what was there. */
  ghost predicate Accepts(big: bool, t: Type, mem: Bytes, p: nat)
    decreases t, 0, 0
  {
    match t
    case Scalar(_, n, _) => Receives(big, n, mem, p)
    case Alias(to) => Accepts(big, to, mem, p)
    case Array(_, cap, e) => AcceptsItems(big, e, cap, mem, p)
    case Message(_, _, _, fs) => AcceptsFields(big, fs, mem, p)
  }

  ghost predicate AcceptsItems(big: bool, e: Type, cap: nat, mem: Bytes, p: nat)
    decreases e, 1, cap
  {
    cap == 0 || (Accepts(big, e, mem, p) && AcceptsItems(big, e, cap - 1, mem, p + Size(e)))
  }

  ghost predicate AcceptsFields(big: bool, fs: Fields, mem: Bytes, p: nat)
    decreases fs, 0, 0
  {
    fs.End? || (Accepts(big, fs.typ, mem, p + fs.offset) && AcceptsFields(big, fs.rest, mem, p))
  }

  // ----- Which memory accepts which types -----

  lemma {:induction false} AcceptsFrame(big: bool, t: Type, a: Bytes, b: Bytes, p: nat)
    requires WellFormed(t) && Agree(a, b, p, p + Size(t)) && Accepts(big, t, a, p)
    ensures Accepts(big, t, b, p)
    decreases t, 0, 0
  {
    match t
    case Scalar(_, _, _) =>
    case Alias(to) => AcceptsFrame(big, to, a, b, p);
    case Array(_, cap, e) => AcceptsItemsFrame(big, e, cap, a, b, p);
    case Message(_, _, size, fs) => AcceptsFieldsFrame(big, fs, 0, size, a, b, p);
  }

  lemma {:induction false} AcceptsItemsFrame(big: bool, e: Type, cap: nat, a: Bytes, b: Bytes, p: nat)
    requires WellFormed(e) && Agree(a, b, p, p + Times(cap, Size(e))) && AcceptsItems(big, e, cap, a, p)
    ensures AcceptsItems(big, e, cap, b, p)
    decreases e, 1, cap
  {
    if cap > 0 {
      AcceptsFrame(big, e, a, b, p);
      AcceptsItemsFrame(big, e, cap - 1, a, b, p + Size(e));
    }
  }

  lemma {:induction false} AcceptsFieldsFrame(big: bool, fs: Fields, from: nat, to: nat, a: Bytes, b: Bytes, p: nat)
    requires FieldsWellFormed(fs, from, to) && Agree(a, b, p + from, p + to) && AcceptsFields(big, fs, a, p)
    ensures AcceptsFields(big, fs, b, p)
    decreases fs, 0, 0
  {
    if fs.Next? {
      var next := fs.offset + Size(fs.typ);
      FieldsEnd(fs.rest, next, to);
      AcceptsFrame(big, fs.typ, a, b, p + fs.offset);
      AcceptsFieldsFrame(big, fs.rest, next, to, a, b, p);
    }
  }

  /** Cleared memory accepts every type. */
  lemma {:induction false} BlankAccepts(big: bool, t: Type, mem: Bytes, p: nat)
    requires WellFormed(t) && Blank(mem, p, p + Size(t))
    ensures Accepts(big, t, mem, p)
    decreases t, 0, 0
  {
    match t
    case Scalar(_, _, _) =>
    case Alias(to) => BlankAccepts(big, to, mem, p);
    case Array(_, cap, e) => BlankAcceptsItems(big, e, cap, mem, p);
    case Message(_, _, size, fs) => BlankAcceptsFields(big, fs, 0, size, mem, p);
  }

  lemma {:induction false} BlankAcceptsItems(big: bool, e: Type, cap: nat, mem: Bytes, p: nat)
    requires WellFormed(e) && Blank(mem, p, p + Times(cap, Size(e)))
    ensures AcceptsItems(big, e, cap, mem, p)
    decreases e, 1, cap
  {
    if cap > 0 {
      BlankAccepts(big, e, mem, p);
      BlankAcceptsItems(big, e, cap - 1, mem, p + Size(e));
    }
  }

  lemma {:induction false} BlankAcceptsFields(big: bool, fs: Fields, from: nat, to: nat, mem: Bytes, p: nat)
    requires FieldsWellFormed(fs, from, to) && Blank(mem, p + from, p + to)
    ensures AcceptsFields(big, fs, mem, p)
    decreases fs, 0, 0
  {
    if fs.Next? {
      var next := fs.offset + Size(fs.typ);
      FieldsEnd(fs.rest, next, to);
      BlankAccepts(big, fs.typ, mem, p + fs.offset);
      BlankAcceptsFields(big, fs.rest, next, to, mem, p);
    }
  }

  /** All the scalars of a type are complete C integers. */
  ghost predicate Complete(t: Type)
    decreases t, 0
  {
    match t
    case Scalar(_, n, _) => StandardWidth(n)
    case Alias(to) => Complete(to)
    case Array(_, _, e) => Complete(e)
    case Message(_, _, _, fs) => FieldsComplete(fs)
  }

  ghost predicate FieldsComplete(fs: Fields)
    decreases fs, 0
  {
    fs.End? || (Complete(fs.typ) && FieldsComplete(fs.rest))
  }

  /** Any memory accepts complete C integers, and on a big-endian host every type. */
  lemma {:induction false} AnyAccepts(big: bool, t: Type, mem: Bytes, p: nat)
    requires big || Complete(t)
    ensures Accepts(big, t, mem, p)
    decreases t, 0, 0
  {
    match t
    case Scalar(_, _, _) =>
    case Alias(to) => AnyAccepts(big, to, mem, p);
    case Array(_, cap, e) => AnyAcceptsItems(big, e, cap, mem, p);
    case Message(_, _, _, fs) => AnyAcceptsFields(big, fs, mem, p);
  }

  lemma {:induction false} AnyAcceptsItems(big: bool, e: Type, cap: nat, mem: Bytes, p: nat)
    requires big || Complete(e)
    ensures AcceptsItems(big, e, cap, mem, p)
    decreases e, 1, cap
  {
    if cap > 0 {
      AnyAccepts(big, e, mem, p);
      AnyAcceptsItems(big, e, cap - 1, mem, p + Size(e));
    }
  }

  lemma {:induction false} AnyAcceptsFields(big: bool, fs: Fields, mem: Bytes, p: nat)
    requires big || FieldsComplete(fs)
    ensures AcceptsFields(big, fs, mem, p)
    decreases fs, 0, 0
  {
    if fs.Next? {
      AnyAccepts(big, fs.typ, mem, p + fs.offset);
      AnyAcceptsFields(big, fs.rest, mem, p);
    }
  }
}
