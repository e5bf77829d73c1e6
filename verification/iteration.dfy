/** Rust's `Iterator`, over items that are already known: the `Split`
    iterator the reader walks with `nth`. */
module Iteration {
  import opened Outcomes

  /** An iterator over `items` that has handed out the first `pos` of
      them. */
  datatype Iter<T> = Iter(items: seq<T>, pos: nat)

  /** What one call gives back: the item, if any, and the iterator as it
      is afterwards. */
  datatype Step<T> = Step(item: Option<T>, rest: Iter<T>)

  /** A fresh iterator, before any call. */
  function Start<T>(items: seq<T>): Iter<T> {
    Iter(items, 0)
  }

  /** `Iterator::next`: the next item, moving past it; an iterator that has
      run out stays where it is and keeps answering `None`. */
  function Next<T>(it: Iter<T>): Step<T> {
    if it.pos < |it.items| then Step(Some(it.items[it.pos]), Iter(it.items, it.pos + 1))
    else Step(None, it)
  }

  /** `Iterator::nth(n)` as the trait's default defines it: `n` items are
      skipped with `next` and the one after them is returned. The result is
      the item `n` places ahead of the iterator, and the iterator ends up
      just past it, or at the end when there is no such item. */
  function NthItem<T>(it: Iter<T>, n: nat): (r: Step<T>)
    ensures it.pos + n < |it.items| ==> r == Step(Some(it.items[it.pos + n]), Iter(it.items, it.pos + n + 1))
    ensures it.pos + n >= |it.items| ==>
              r.item == None && r.rest.items == it.items &&
              r.rest.pos == if it.pos < |it.items| then |it.items| else it.pos
    decreases n
  {
    var step := Next(it);
    if n == 0 then step else NthItem(step.rest, n - 1)
  }

  /** Two `nth(0)` calls in a row on a fresh iterator give the first item
      and then the second, each `None` when there are not that many. */
  lemma NthZeroTwice<T>(items: seq<T>)
    ensures var first := NthItem(Start(items), 0);
            var second := NthItem(first.rest, 0);
            && first.item == (if 0 < |items| then Some(items[0]) else None)
            && second.item == (if 1 < |items| then Some(items[1]) else None)
  {
  }
}
