/** Java arrays as mutable objects in a value-level heap, so that aliasing
    and defensive copies can be stated: an array is a reference into
    `contents`, and writing through one reference is visible to every
    holder of that reference and to nobody else. */
module JavaArrays {

  type ArrayRef = nat

  datatype Heap<E> = Heap(contents: map<ArrayRef, seq<E>>, next: ArrayRef) {

    /** Every allocated reference lies below the allocation counter. */
    ghost predicate Valid() {
      forall a :: a in contents ==> a < next
    }

    /** `new E[]{...}` / `clone()`: a fresh array holding `elems`. */
    function Alloc(elems: seq<E>): (res: (Heap<E>, ArrayRef))
      requires Valid()
      ensures res.1 !in contents
      ensures res.0.Valid()
      ensures res.0.contents == contents[res.1 := elems]
    {
      (Heap(contents[next := elems], next + 1), next)
    }

    /** `arr[i] = v` through reference `a`. */
    function Write(a: ArrayRef, i: nat, v: E): (h: Heap<E>)
      requires a in contents && i < |contents[a]|
      ensures h.contents.Keys == contents.Keys
      ensures h.contents[a] == contents[a][i := v]
      ensures forall b :: b in contents && b != a ==> h.contents[b] == contents[b]
      ensures Valid() ==> h.Valid()
    {
      Heap(contents[a := contents[a][i := v]], next)
    }
  }
}
