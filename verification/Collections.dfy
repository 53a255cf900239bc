/** Small facts about sets and maps used by several components. */
module Collections {

  datatype Option<+T> = None | Some(value: T)

  lemma {:induction false} SubsetSize<T>(a: set<T>, b: set<T>)
    requires a <= b
    ensures |a| <= |b|
  {
    if a != {} {
      var x :| x in a;
      SubsetSize(a - {x}, b - {x});
    }
  }

  /** A supply of distinct keys. */
  function Name(i: nat): string {
    if i == 0 then "k" else Name(i - 1) + "k"
  }

  lemma {:induction false} NameLength(i: nat)
    ensures |Name(i)| == i + 1
  {
    if i > 0 {
      NameLength(i - 1);
    }
  }
}
