/** A Python `list` that is shared and changed in place: the parser's
  * character accumulator (cleared by the flush) and the traversal's result
  * list (appended to by every recursive call). */
module Lists {

  class MutableList<T> {
    var items: seq<T>

    /** `[]` */
    constructor ()
      ensures items == []
    {
      items := [];
    }

    /** `list.append(x)` */
    method Append(x: T)
      modifies this
      ensures items == old(items) + [x]
    {
      items := items + [x];
    }

    /** `list.clear()` */
    method Clear()
      modifies this
      ensures items == []
    {
      items := [];
    }
  }

  /** Concatenation is associative; stated once so that proofs about lists
    * grown by appends can cite it. */
  lemma Associative<T>(a: seq<T>, b: seq<T>, c: seq<T>)
    ensures a + (b + c) == (a + b) + c
  {
  }
}
