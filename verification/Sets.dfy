/** Sizes of finite sets. */
module Sets {

  lemma {:induction false} SubsetSize<T>(s: set<T>, u: set<T>)
    requires s <= u
    ensures |s| <= |u|
    decreases s
  {
    if s != {} {
      var x :| x in s;
      SubsetSize(s - {x}, u - {x});
    }
  }
}
