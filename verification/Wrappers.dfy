// The types the modules below share.
module Wrappers {

  type Byte = x: int | 0 <= x < 0x100

  /** `None` also stands for a thrown exception: `:-` passes it on. */
  datatype Option<+T> = None | Some(value: T) {

    predicate IsFailure() {
      None?
    }

    function PropagateFailure<U>(): Option<U>
      requires None?
    {
      None
    }

    function Extract(): T
      requires Some?
    {
      value
    }
  }

  /** Finitely many numbers have a bound: there is always a thread not heard of yet. */
  lemma {:induction false} Bound(xs: set<nat>) returns (b: nat)
    ensures forall x | x in xs :: x < b
  {
    b := 0;
    if xs != {} {
      var x :| x in xs;
      var rest := Bound(xs - {x});
      b := if rest <= x then x + 1 else rest;
      assert forall y | y in xs :: y == x || y in xs - {x};
    }
  }
}
