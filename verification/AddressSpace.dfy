/** Geometry of the guest address space: 32-bit addresses, spans of mapped
    addresses, and the layouts a sorted region list can have. Nothing here
    touches the heap; `GuestMemory` ties its region list to these functions. */
module AddressSpace {

  const LIMIT: int := 0x1_0000_0000
  const PAGE: int := 0x1000

  /** A uint32_t. */
  type Address = x: int | 0 <= x < 0x1_0000_0000

  /** Reduction of an exact result to uint32_t. */
  function Wrap(x: int): Address {
    x % LIMIT
  }

  /** `x & ~0xFFF` */
  function PageFloor(x: Address): Address {
    x - x % PAGE
  }

  /** The value of a uint32_t converted to a 32-bit `int`. */
  function AsInt32(x: Address): int {
    if x < 0x8000_0000 then x else x - LIMIT
  }

  /** The inclusive address range of one region. It is empty when `end < start`,
      which a wrapped request can produce. */
  datatype Span = Span(start: Address, end: Address) {
    predicate Has(a: int) {
      start <= a <= end
    }
  }

  /** Neither span reaches the other. */
  predicate Apart(x: Span, y: Span) {
    x.end < y.start || y.end < x.start
  }

  predicate ApartFromAll(spans: seq<Span>, x: Span) {
    forall i :: 0 <= i < |spans| ==> Apart(spans[i], x)
  }

  predicate SortedByEnd(spans: seq<Span>) {
    forall i, j :: 0 <= i < j < |spans| ==> spans[i].end <= spans[j].end
  }

  predicate PairwiseApart(spans: seq<Span>) {
    forall i, j :: 0 <= i < j < |spans| ==> Apart(spans[i], spans[j])
  }

  predicate NonEmpty(spans: seq<Span>) {
    forall i :: 0 <= i < |spans| ==> spans[i].start <= spans[i].end
  }

  /** Every region ends on the last byte of a page. */
  predicate PageEnds(spans: seq<Span>) {
    forall i :: 0 <= i < |spans| ==> spans[i].end % PAGE == PAGE - 1
  }

  /** A layout in which address translation and allocation are meaningful. */
  predicate Layout(spans: seq<Span>) {
    SortedByEnd(spans) && PairwiseApart(spans) && NonEmpty(spans) && PageEnds(spans)
  }

  /** After each region there is at least one whole page before any later one. */
  predicate GuardPages(spans: seq<Span>) {
    forall i, j :: 0 <= i < j < |spans| ==> spans[i].end + 1 + PAGE <= spans[j].start
  }

  /** Sorted, disjoint, non-empty spans follow each other without touching back. */
  lemma LayoutOrder(spans: seq<Span>, i: nat, j: nat)
    requires SortedByEnd(spans) && PairwiseApart(spans) && NonEmpty(spans)
    requires i < j < |spans|
    ensures spans[i].start <= spans[i].end < spans[j].start <= spans[j].end
  {
    assert Apart(spans[i], spans[j]);
  }

  // ---------------------------------------------------------------- lookup

  /** Index of the first span from `i` on that holds `a`, or `|spans|`. */
  function ScanFrom(spans: seq<Span>, a: int, i: nat): (k: nat)
    requires i <= |spans|
    ensures i <= k <= |spans|
    ensures k < |spans| ==> spans[k].Has(a)
    ensures forall j :: i <= j < k ==> !spans[j].Has(a)
    decreases |spans| - i
  {
    if i == |spans| || spans[i].Has(a) then i else ScanFrom(spans, a, i + 1)
  }

  function Scan(spans: seq<Span>, a: int): (k: nat)
    ensures k <= |spans|
    ensures k < |spans| ==> spans[k].Has(a)
    ensures forall j :: 0 <= j < k ==> !spans[j].Has(a)
  {
    ScanFrom(spans, a, 0)
  }

  predicate Mapped(spans: seq<Span>, a: int) {
    Scan(spans, a) < |spans|
  }

  /** The whole block of `n` bytes from `a` lies in the region translation picks for `a`. */
  predicate Fits(spans: seq<Span>, a: int, n: nat) {
    Mapped(spans, a) && a + n <= spans[Scan(spans, a)].end + 1
  }

  /** In a disjoint list the scan finds the only region that can hold the address,
      wherever it stands in the list. */
  lemma ScanFinds(spans: seq<Span>, a: int, i: nat)
    requires PairwiseApart(spans) && i < |spans| && spans[i].Has(a)
    ensures Scan(spans, a) == i
  {
    assert forall k :: 0 <= k < i ==> Apart(spans[k], spans[i]);
  }

  // ---------------------------------------------------------------- insertion

  function PositionFrom(spans: seq<Span>, e: int, i: nat): (k: nat)
    requires i <= |spans|
    ensures i <= k <= |spans|
    ensures forall j :: i <= j < k ==> spans[j].end <= e
    ensures k < |spans| ==> e < spans[k].end
    decreases |spans| - i
  {
    if i == |spans| || e < spans[i].end then i else PositionFrom(spans, e, i + 1)
  }

  /** Where a span ending at `e` goes when the list is kept sorted by end. */
  function Position(spans: seq<Span>, e: int): (k: nat)
    ensures k <= |spans|
    ensures forall i :: 0 <= i < k ==> spans[i].end <= e
    ensures k < |spans| ==> e < spans[k].end
  {
    PositionFrom(spans, e, 0)
  }

  lemma PositionIs(spans: seq<Span>, e: int, k: nat)
    requires k <= |spans|
    requires forall i :: 0 <= i < k ==> spans[i].end <= e
    requires k < |spans| ==> e < spans[k].end
    ensures Position(spans, e) == k
  {
  }

  function InsertAt<T>(s: seq<T>, k: nat, x: T): (r: seq<T>)
    requires k <= |s|
    ensures |r| == |s| + 1 && r[k] == x
    ensures forall m :: 0 <= m < k ==> r[m] == s[m]
    ensures forall m :: k < m < |r| ==> r[m] == s[m - 1]
  {
    s[..k] + [x] + s[k..]
  }

  lemma InsertAtMembers<T>(s: seq<T>, k: nat, x: T)
    requires k <= |s|
    ensures forall y :: y in InsertAt(s, k, x) <==> y in s || y == x
  {
    assert s == s[..k] + s[k..];
  }

  function Insert(spans: seq<Span>, x: Span): seq<Span> {
    InsertAt(spans, Position(spans, x.end), x)
  }

  lemma InsertKeepsSorted(spans: seq<Span>, x: Span)
    requires SortedByEnd(spans)
    ensures SortedByEnd(Insert(spans, x))
  {
    var k := Position(spans, x.end);
    assert forall i :: k <= i < |spans| ==> x.end < spans[i].end;
  }

  lemma InsertMembers(spans: seq<Span>, x: Span)
    ensures forall y :: y in Insert(spans, x) <==> y in spans || y == x
  {
    InsertAtMembers(spans, Position(spans, x.end), x);
  }

  /** Inserting a non-empty page-ended span that meets no other keeps the layout. */
  lemma InsertKeepsLayout(spans: seq<Span>, x: Span)
    requires Layout(spans) && ApartFromAll(spans, x)
    requires x.start <= x.end && x.end % PAGE == PAGE - 1
    ensures Layout(Insert(spans, x))
  {
    InsertKeepsSorted(spans, x);
    var k := Position(spans, x.end);
    var r := Insert(spans, x);
    forall i, j | 0 <= i < j < |r| ensures Apart(r[i], r[j]) {
      if i == k {
        assert Apart(spans[j - 1], x);
      } else if j == k {
        assert Apart(spans[i], x);
      }
    }
  }

  /** Nothing less will do. */
  lemma InsertKeepsLayoutIff(spans: seq<Span>, x: Span)
    requires Layout(spans)
    ensures Layout(Insert(spans, x)) <==>
              x.start <= x.end && x.end % PAGE == PAGE - 1 && ApartFromAll(spans, x)
  {
    var r, k := Insert(spans, x), Position(spans, x.end);
    if Layout(r) {
      forall i | 0 <= i < |spans| ensures Apart(spans[i], x) {
        assert spans[i] == r[if i < k then i else i + 1] && x == r[k];
      }
    }
    if x.start <= x.end && x.end % PAGE == PAGE - 1 && ApartFromAll(spans, x) {
      InsertKeepsLayout(spans, x);
    }
  }

  /** `x` leaves a page after each region before it and before each region after it. */
  predicate LeavesGuards(spans: seq<Span>, x: Span) {
    forall i :: 0 <= i < |spans| ==>
      if spans[i].end <= x.end then spans[i].end + 1 + PAGE <= x.start
      else x.end + 1 + PAGE <= spans[i].start
  }

  /** The element of `Insert(spans, x)` at `m`. */
  lemma InsertedAt(spans: seq<Span>, x: Span, m: nat)
    requires m <= |spans|
    ensures var k := Position(spans, x.end);
            Insert(spans, x)[m] == if m == k then x else spans[if m < k then m else m - 1]
  {
  }

  lemma PositionSplits(spans: seq<Span>, e: int, i: nat)
    requires SortedByEnd(spans) && i < |spans|
    ensures spans[i].end <= e <==> i < Position(spans, e)
  {
    var k := Position(spans, e);
    assert k < i ==> spans[k].end <= spans[i].end;
  }

  /** A new span keeps the guard pages exactly when it leaves them on both sides. */
  lemma InsertKeepsGuards(spans: seq<Span>, x: Span)
    requires GuardPages(spans) && SortedByEnd(spans)
    ensures GuardPages(Insert(spans, x)) <==> LeavesGuards(spans, x)
  {
    if LeavesGuards(spans, x) {
      GuardsIfLeft(spans, x);
    }
    if GuardPages(Insert(spans, x)) {
      LeftIfGuards(spans, x);
    }
  }

  lemma GuardsIfLeft(spans: seq<Span>, x: Span)
    requires GuardPages(spans) && SortedByEnd(spans) && LeavesGuards(spans, x)
    ensures GuardPages(Insert(spans, x))
  {
    var k := Position(spans, x.end);
    var r := Insert(spans, x);
    forall i, j | 0 <= i < j < |r| ensures r[i].end + 1 + PAGE <= r[j].start {
      InsertedAt(spans, x, i);
      InsertedAt(spans, x, j);
      if i == k {
        PositionSplits(spans, x.end, j - 1);
      } else if j == k {
        PositionSplits(spans, x.end, i);
      }
    }
  }

  lemma LeftIfGuards(spans: seq<Span>, x: Span)
    requires SortedByEnd(spans) && GuardPages(Insert(spans, x))
    ensures LeavesGuards(spans, x)
  {
    var k := Position(spans, x.end);
    forall i | 0 <= i < |spans|
      ensures if spans[i].end <= x.end then spans[i].end + 1 + PAGE <= x.start
              else x.end + 1 + PAGE <= spans[i].start
    {
      PositionSplits(spans, x.end, i);
      InsertedAt(spans, x, k);
      InsertedAt(spans, x, if i < k then i else i + 1);
    }
  }

  /** Mapping a span that meets no other leaves the lookup of every other address
      with the same span. */
  lemma InsertKeepsLookup(spans: seq<Span>, x: Span, a: int)
    requires ApartFromAll(spans, x)
    ensures var k := Position(spans, x.end);
            var i := Scan(spans, a);
            Scan(Insert(spans, x), a) ==
              if x.Has(a) then k else if i < k then i else i + 1
  {
    var k := Position(spans, x.end);
    var i := Scan(spans, a);
    var r := Insert(spans, x);
    assert r[k] == x;
    assert forall m :: 0 <= m < |r| && m != k ==> r[m] == spans[if m < k then m else m - 1];
    if x.Has(a) {
      assert forall m :: 0 <= m < |spans| ==> Apart(spans[m], x);
      assert forall m :: 0 <= m < k ==> !r[m].Has(a);
    } else {
      var t := if i < k then i else i + 1;
      assert forall m :: 0 <= m < t ==> !r[m].Has(a);
      assert t < |r| ==> r[t].Has(a);
    }
  }

  /** Addresses mapped before are translated by the same region after. */
  predicate SameLookup(before: seq<Span>, after: seq<Span>) {
    forall a: Address :: Mapped(before, a) ==> Mapped(after, a) && after[Scan(after, a)] == before[Scan(before, a)]
  }

  lemma InsertKeepsSameLookup(spans: seq<Span>, x: Span)
    requires ApartFromAll(spans, x)
    ensures SameLookup(spans, Insert(spans, x))
  {
    forall a: Address | Mapped(spans, a)
      ensures Mapped(Insert(spans, x), a) && Insert(spans, x)[Scan(Insert(spans, x), a)] == spans[Scan(spans, a)]
    {
      assert Apart(spans[Scan(spans, a)], x);
      InsertKeepsLookup(spans, x, a);
    }
  }
}
