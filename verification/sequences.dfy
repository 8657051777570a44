/** Sequence helpers shared by unification and resolution. */
module Sequences {

  /** Removal of element `i` the way the source does it on a `std::vector`:
      the last element is swapped into position `i` and then popped. */
  function RemoveSwap<T>(ps: seq<T>, i: nat): (r: seq<T>)
    requires i < |ps|
    ensures |r| == |ps| - 1
    ensures forall k :: 0 <= k < |r| && k != i ==> r[k] == ps[k]
    ensures i < |r| ==> r[i] == ps[|ps| - 1]
    ensures forall p :: p in r ==> p in ps
    ensures forall p :: p in ps ==> p in r || p == ps[i]
  {
    var r := ps[i := ps[|ps| - 1]][..|ps| - 1];
    assert forall p :: p in ps ==> p in r || p == ps[i] by {
      forall p | p in ps ensures p in r || p == ps[i] {
        var k :| 0 <= k < |ps| && ps[k] == p;
        if k != i && k != |ps| - 1 {
          assert r[k] == p;
        } else if k == |ps| - 1 && i < |r| {
          assert r[i] == p;
        }
      }
    }
    r
  }
}
