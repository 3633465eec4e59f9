/** Target addresses: 64-bit unsigned arithmetic, and the half-open ranges built from it. */
module Addresses {

  const ADDRESS_SPACE: int := 0x1_0000_0000_0000_0000

  /** An unsigned 64-bit value, as the source's `uint64` and `Module::Address`. */
  type Address = a: int | 0 <= a < ADDRESS_SPACE

  /** 64-bit addition; the carry out is lost. */
  function Add(a: Address, b: Address): Address {
    if a + b < ADDRESS_SPACE then a + b else a + b - ADDRESS_SPACE
  }

  /** 64-bit subtraction; a borrow wraps around. */
  function Sub(a: Address, b: Address): Address {
    if b <= a then a - b else a - b + ADDRESS_SPACE
  }

  function Min(a: int, b: int): int {
    if a < b then a else b
  }

  function Max(a: int, b: int): int {
    if a < b then b else a
  }

  /** The address and size shared by functions and lines. */
  datatype Range = Range(address: Address, size: Address) {
    /** The first address past the range, as an unbounded integer. */
    function End(): int {
      address + size
    }

    /** The range is not empty and ends at or before the end of the address space. */
    predicate Proper() {
      0 < size && End() <= ADDRESS_SPACE
    }

    predicate Has(b: int) {
      address <= b < End()
    }

    predicate Overlaps(that: Range) {
      address < that.End() && that.address < End()
    }
  }

  /** `within`: one wrapping subtraction and one comparison. */
  predicate Within(item: Range, address: Address) {
    Sub(address, item.address) < item.size
  }

  /** The single comparison is the two-sided test, exactly because the range does not wrap. */
  lemma WithinIsMembership(item: Range, address: Address)
    requires item.Proper()
    ensures Within(item, address) <==> item.Has(address)
  {
  }

  ghost predicate AllProper(items: seq<Range>) {
    forall i :: 0 <= i < |items| ==> items[i].Proper()
  }

  ghost predicate PairwiseDisjoint(items: seq<Range>) {
    forall i, j :: 0 <= i < |items| && 0 <= j < |items| && i != j ==> !items[i].Overlaps(items[j])
  }

  ghost predicate SortedByAddress(items: seq<Range>) {
    forall i, j :: 0 <= i < j < |items| ==> items[i].address <= items[j].address
  }

  /** Some range of `items` contains byte `b`. */
  ghost predicate Covered(items: seq<Range>, b: int) {
    exists k :: 0 <= k < |items| && items[k].Has(b)
  }
}
