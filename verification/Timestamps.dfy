/** Write timestamps, strictly increasing and following the clock when it moves, and the
    store in which the latest one wins. */
module Timestamps {
  import opened Collections

  /** A stored value, or a tombstone, with its timestamp. */
  datatype Cell<+V> = Cell(ts: int, value: Option<V>)

  /** Last writer wins. */
  function Put<K, V>(cells: map<K, Cell<V>>, at: K, c: Cell<V>): map<K, Cell<V>> {
    if at in cells && cells[at].ts >= c.ts then cells else cells[at := c]
  }

  /** What a reader of the store sees. */
  function Values<K, V>(cells: map<K, Cell<V>>): map<K, V> {
    map k | k in cells && cells[k].value.Some? :: cells[k].value.value
  }

  /** TimestampGenerator::next: the least timestamp that is newer than the last one and not
      behind the clock. */
  function NextStamp(last: int, now: int): (ts: int)
    ensures ts > last && ts >= now && (ts == last + 1 || ts == now)
  {
    if now <= last then last + 1 else now
  }

  /** Timestamps in increasing order, none newer than `last`. */
  ghost predicate Increasing(stamps: seq<int>, last: int) {
    && (forall i, j :: 0 <= i < j < |stamps| ==> stamps[i] < stamps[j])
    && (forall i :: 0 <= i < |stamps| ==> stamps[i] <= last)
  }

  /** The generator of one table; the steady clock is the argument. */
  class TimestampGenerator {
    var last: int

    constructor ()
      ensures last == 0
    {
      last := 0;
    }

    method Next(now: int) returns (ts: int)
      modifies this
      ensures ts == last == NextStamp(old(last), now) && old(last) < ts
    {
      var stamp := now;
      if stamp <= last {
        stamp := last + 1;
      }
      last := stamp;
      ts := last;
    }
  }
}
