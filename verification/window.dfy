/**
 The bounded trailing window: a FIFO of fixed capacity that, once full, evicts its
 oldest element on every push (the behaviour of `BoundedVecDeque::push_back`).
 */
module Window {
  import opened Wrappers

  /** What a push leaves behind: the new contents and the element pushed out, if any. */
  datatype Pushed<T> = Pushed(items: seq<T>, evicted: Option<T>)

  /** The elements a push evicted, as a sequence of length zero or one. */
  function Evicted<T>(p: Pushed<T>): seq<T>
  {
    if p.evicted.Some? then [p.evicted.value] else []
  }

  /** Appends `v` at the tail; when the window was already full, its head is removed and returned. */
  function Push<T>(items: seq<T>, capacity: nat, v: T): (r: Pushed<T>)
    requires 1 <= capacity && |items| <= capacity
    ensures |r.items| <= capacity
    ensures r.evicted.Some? <==> |items| == capacity
    ensures |r.items| == if |items| < capacity then |items| + 1 else capacity
    // FIFO law: nothing is lost or reordered, the evicted head simply leaves at the front
    ensures Evicted(r) + r.items == items + [v]
    ensures r.evicted.Some? ==> r.evicted.value == items[0]
    ensures multiset(r.items) + multiset(Evicted(r)) == multiset(items) + multiset{v}
  {
    if |items| == capacity then
      var r := Pushed(items[1..] + [v], Some(items[0]));
      assert items == [items[0]] + items[1..];
      r
    else
      Pushed(items + [v], None)
  }
}
