/** A store that wrappers and migrations work on: contents changed in place, one operation at
    a time. */
module BackingStores {
  import opened Base
  import opened KeyValue

  class BackingStore<K(==)> {
    var cells: Store<K>

    constructor (cells: Store<K>)
      ensures this.cells == cells
    {
      this.cells := cells;
    }

    method Perform(op: Op<K>, now: int) returns (out: Result<Outcome>)
      modifies this
      ensures (cells, out) == Apply(old(cells), now, op)
    {
      var (after, outcome) := Apply(cells, now, op);
      cells := after;
      out := outcome;
    }
  }
}
