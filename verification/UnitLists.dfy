/** The unit scheduler: 128 doubly linked lines of entities. Memory is one record per readable
    entity. */
module UnitLists {
  const LINES: nat := 128

  /** The vtable word, the dispatch word at +0x10, and the links at +0x18 and +0x20. */
  datatype Entity = Entity(vt: nat, state: nat, fwd: nat, back: nat)

  type Heap = map<nat, Entity>

  /** heads are the slots at +0x50, where fwd chains start; tails the slots at +0x58. */
  datatype Lists = Lists(heap: Heap, heads: seq<nat>, tails: seq<nat>) {
    ghost predicate Whole() {
      |heads| == 128 && |tails| == 128
    }
  }

  predicate Canon(x: nat) {
    0x10000 <= x < 0x7FFF_FFFF_FFFF
  }

  class Scheduler {
    var heap: Heap
    const heads: array<nat>
    const tails: array<nat>

    ghost predicate Valid()
      reads this
    {
      heads.Length == LINES && tails.Length == LINES && heads != tails
    }

    ghost function Now(): (s: Lists)
      reads this, heads, tails
      requires Valid()
      ensures s.Whole()
    {
      Lists(heap, heads[..], tails[..])
    }

    constructor (heap: Heap, h: seq<nat>, t: seq<nat>)
      requires |h| == LINES && |t| == LINES
      ensures Valid() && fresh(heads) && fresh(tails) && Now() == Lists(heap, h, t)
    {
      this.heap := heap;
      heads := new nat[|h|](i requires 0 <= i < |h| => h[i]);
      tails := new nat[|t|](i requires 0 <= i < |t| => t[i]);
    }
  }
}
