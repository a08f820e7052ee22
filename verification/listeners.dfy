/** Change notification: the per-type callback list, `RaiseEvent`'s
    synchronous delivery of one event to it, and `List<T>.Remove`, which
    `RemoveListener` relies on. */
module Listeners {
  import opened Tables

  datatype Action = Add | Update | Delete

  /** What one mutating call announces: the action, the identifier and the
      value involved. */
  datatype Event<V> = Event(action: Action, id: Id, value: V)

  /** A registered callback. A handle stands for one `Delegate.Equals`
      equivalence class (same target and method list), which is how
      `List.Remove` matches callbacks; `Null` is a null delegate, which
      registration accepts and delivery skips (`callback?.Invoke`). */
  datatype Callback = Null | Handler(handle: nat)

  /** One invocation of the callback `handle` with `event`. */
  datatype Delivery<V> = Delivery(handle: nat, event: Event<V>)

  /** Reference definition: the handles of the non-null callbacks, in list
      order. Each handle occurs as often as it was registered. */
  function Live(cbs: seq<Callback>): (r: seq<nat>)
    ensures |r| <= |cbs|
    ensures forall h :: multiset(r)[h] == multiset(cbs)[Handler(h)]
  {
    if |cbs| == 0 then []
    else
      assert cbs == [cbs[0]] + cbs[1..];
      match cbs[0]
      case Null => Live(cbs[1..])
      case Handler(h) => [h] + Live(cbs[1..])
  }

  /** The `foreach` of `RaiseEvent` over one callback list: the k-th
      invocation goes to the k-th live callback, and every invocation carries
      the same event. */
  function Deliver<V>(cbs: seq<Callback>, e: Event<V>): (r: seq<Delivery<V>>)
    ensures |r| == |Live(cbs)|
    ensures forall i :: 0 <= i < |r| ==> r[i] == Delivery(Live(cbs)[i], e)
  {
    if |cbs| == 0 then []
    else
      match cbs[0]
      case Null => Deliver(cbs[1..], e)
      case Handler(h) => [Delivery(h, e)] + Deliver(cbs[1..], e)
  }

  /** Registration order is delivery order: the live callbacks of a list
      registered in two batches are those of the first batch, then those of
      the second. */
  lemma {:induction false} LiveConcat(a: seq<Callback>, b: seq<Callback>)
    ensures Live(a + b) == Live(a) + Live(b)
  {
    if |a| == 0 {
      assert a + b == b;
    } else {
      assert (a + b)[1..] == a[1..] + b;
      LiveConcat(a[1..], b);
    }
  }

  /** Delivering to a list registered in two batches delivers to the first
      batch, then to the second. */
  lemma DeliverConcat<V>(a: seq<Callback>, b: seq<Callback>, e: Event<V>)
    ensures Deliver(a + b, e) == Deliver(a, e) + Deliver(b, e)
  {
    LiveConcat(a, b);
  }

  /** Position of the first occurrence of `x` in `xs`. */
  function IndexOf<T(==)>(xs: seq<T>, x: T): (i: nat)
    requires x in xs
    ensures i < |xs| && xs[i] == x && x !in xs[..i]
  {
    if xs[0] == x then 0 else 1 + IndexOf(xs[1..], x)
  }

  /** `List<T>.Remove`: drops the first element equal to `x` and keeps the
      rest in order; a list without `x` is returned unchanged. */
  function RemoveFirst<T(==)>(xs: seq<T>, x: T): (r: seq<T>)
    ensures x !in xs ==> r == xs
    ensures x in xs ==> r == xs[..IndexOf(xs, x)] + xs[IndexOf(xs, x) + 1..]
  {
    if |xs| == 0 then xs
    else if xs[0] == x then
      assert xs == [x] + xs[1..];
      xs[1..]
    else
      var rest := RemoveFirst(xs[1..], x);
      if x in xs then
        IndexOfPastHead(xs, x);
        var i, j := IndexOf(xs, x), IndexOf(xs[1..], x);
        assert rest == xs[1..][..j] + xs[1..][j + 1..];
        assert [xs[0]] + rest == xs[..i] + xs[i + 1..];
        [xs[0]] + rest
      else
        assert xs == [xs[0]] + xs[1..];
        [xs[0]] + rest
  }

  /** When the head is not `x`, the first occurrence of `x` lies one step
      further than in the tail, and the slices around it shift with it. */
  lemma IndexOfPastHead<T>(xs: seq<T>, x: T)
    requires x in xs && xs[0] != x
    ensures x in xs[1..]
    ensures var i, j := IndexOf(xs, x), IndexOf(xs[1..], x);
      && i == j + 1
      && xs[..i] == [xs[0]] + xs[1..][..j]
      && xs[i + 1..] == xs[1..][j + 1..]
  {
    assert xs == [xs[0]] + xs[1..];
  }

  /** Removing a callback that was just appended, and was not registered
      before, restores the previous list. */
  lemma RemoveFirstAfterAppend<T>(xs: seq<T>, x: T)
    requires x !in xs
    ensures RemoveFirst(xs + [x], x) == xs
  {
    var ys := xs + [x];
    assert ys[..|xs|] == xs;
    assert forall i :: 0 <= i < |xs| ==> ys[i] == xs[i];
  }
}
