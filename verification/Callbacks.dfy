/** Iteration with a callback that may keep state: its answer is a function of all the items it
    has been called with so far, and the iteration goes on as long as the answer is 0. */
module Callbacks {

  /** Every call was answered 0. */
  ghost predicate AllZero<T(!new)>(visited: seq<T>, cb: seq<T> -> int) {
    forall v: seq<T> :: v != [] && v <= visited ==> cb(v) == 0
  }

  /** The last call was answered `r`, every earlier one 0. */
  ghost predicate StoppedAt<T(!new)>(visited: seq<T>, cb: seq<T> -> int, r: int) {
    && visited != [] && cb(visited) == r
    && AllZero(visited[..|visited| - 1], cb)
  }

  /** One call more. */
  lemma Called<T(!new)>(visited: seq<T>, x: T, cb: seq<T> -> int)
    requires AllZero(visited, cb)
    ensures cb(visited + [x]) == 0 ==> AllZero(visited + [x], cb)
    ensures StoppedAt(visited + [x], cb, cb(visited + [x]))
  {
    var all := visited + [x];
    assert all[..|all| - 1] == visited;
    if cb(all) == 0 {
      forall v: seq<T> | v != [] && v <= all ensures cb(v) == 0 {
        if |v| == |all| { assert v == all; } else { assert v == all[..|v|] == visited[..|v|]; }
      }
    }
  }
}
