/** The metadata page table: one word for each page, with where the page's metadata
    starts and how many bytes one piece of metadata covers. */
module MetaPagetable {
  import opened Words

  const PAGE_SHIFT: nat := 12
  const PAGE_SIZE: nat := 4096
  const PAGE_TABLE_SIZE: nat := 0x10_0000_0000

  // ----- shifting -----

  /** `x >> a`. */
  function ShiftRight(x: nat, a: nat): nat {
    Quotient(x, Pow2(a))
  }

  lemma {:induction false} PageIsPow2(a: nat)
    requires a == PAGE_SHIFT
    ensures Pow2(a) == PAGE_SIZE
  {
    assert Pow2(4) == 16;
    Pow2Add(4, 4);
    Pow2Add(8, 4);
  }

  /** Adding within the lowest bits, below a power of two that divides the rest. */
  lemma {:induction false} SplitShift(q: nat, m: nat, off: nat, a: nat)
    requires m == Pow2(a)
    ensures ShiftRight(q * m + off, a) == q + ShiftRight(off, a)
  {
    var p, r := off / m, off % m;
    assert off == p * m + r;
    Distribute(q, p, m);
    DivisionUnique(q * m + off, m, q + p, r);
  }

  /** The granules of a page are whole. */
  lemma {:induction false} SmallGranules(i: nat, off: nat, a: nat)
    requires a <= PAGE_SHIFT
    ensures ShiftRight(i * PAGE_SIZE + off, a) == ShiftRight(i * PAGE_SIZE, a) + ShiftRight(off, a)
  {
    var k, m := Pow2(PAGE_SHIFT - a), Pow2(a);
    PageIsPow2(PAGE_SHIFT);
    Pow2Add(PAGE_SHIFT - a, a);
    Associate(i, k, m);
    SplitShift(i * k, m, off, a);
    SplitShift(i * k, m, 0, a);
    DivisionUnique(0, m, 0, 0);
  }

  /** Pages `q * k` to `q * k + k - 1` make up granule `q`. */
  lemma {:induction false} InGranule(i: nat, k: nat, off: nat)
    requires k > 0 && off < PAGE_SIZE
    ensures Quotient(i * PAGE_SIZE + off, k * PAGE_SIZE) == Quotient(i, k)
  {
    var q, r := i / k, i % k;
    assert i == q * k + r;
    WithinGranule(q, k, r, off);
    DivisionUnique(i * PAGE_SIZE + off, k * PAGE_SIZE, q, r * PAGE_SIZE + off);
  }

  /** A page lies within one granule. */
  lemma {:induction false} LargeGranules(i: nat, off: nat, a: nat)
    requires a > PAGE_SHIFT && off < PAGE_SIZE
    ensures ShiftRight(i * PAGE_SIZE + off, a) == ShiftRight(i * PAGE_SIZE, a) && ShiftRight(off, a) == 0
  {
    var k := Pow2(a - PAGE_SHIFT);
    PageIsPow2(PAGE_SHIFT);
    Pow2Add(a - PAGE_SHIFT, PAGE_SHIFT);
    InGranule(i, k, off);
    InGranule(i, k, 0);
    InGranule(0, k, off);
    DivisionUnique(0, k, 0, 0);
  }

  /** A page's share and the share within the page add up. */
  lemma {:induction false} PageShift(i: nat, off: nat, a: nat)
    requires off < PAGE_SIZE
    ensures ShiftRight(i * PAGE_SIZE + off, a) == ShiftRight(i * PAGE_SIZE, a) + ShiftRight(off, a)
  {
    if a <= PAGE_SHIFT {
      SmallGranules(i, off, a);
    } else {
      LargeGranules(i, off, a);
    }
  }

  lemma {:induction false} WithinGranule(q: nat, k: nat, r: nat, off: nat)
    requires r < k && off < PAGE_SIZE
    ensures (q * k + r) * PAGE_SIZE == q * (k * PAGE_SIZE) + r * PAGE_SIZE && r * PAGE_SIZE + off < k * PAGE_SIZE
  {
    Distribute(q * k, r, PAGE_SIZE);
    Associate(q, k, PAGE_SIZE);
    Distribute(k - 1, r, PAGE_SIZE);
    ProductAtLeastZero(k - 1 - r, PAGE_SIZE);
  }

  // ----- entries -----

  const LOW_BYTE: nat := 256

  /** `(pageMetaptr << 8) | alignment`, in 64 bits. */
  function Entry(pageMetaptr: nat, alignment: nat): nat {
    Or((pageMetaptr * LOW_BYTE) % WORD, alignment)
  }

  function MetaOf(entry: nat): nat {
    entry / LOW_BYTE
  }

  function AlignmentOf(entry: nat): nat {
    entry % LOW_BYTE
  }

  lemma {:induction false} NoCommonBits(x: nat, y: nat, k: nat)
    requires y < Pow2(k)
    ensures And(x * Pow2(k), y) == 0
    decreases k
  {
    if k > 0 && y > 0 && x > 0 {
      Associate(x, 2, Pow2(k - 1));
      assert x * Pow2(k) == 2 * (x * Pow2(k - 1));
      NoCommonBits(x, y / 2, k - 1);
    }
  }

  lemma {:induction false} LowByteIsPow2(k: nat)
    requires k == 8
    ensures Pow2(k) == LOW_BYTE
  {
    assert Pow2(4) == 16;
    Pow2Add(4, 4);
  }

  /** Pointers below 2^56 and alignments below 256 can be read back. */
  lemma {:induction false} EntryDecodes(pageMetaptr: nat, alignment: nat)
    requires pageMetaptr * LOW_BYTE < WORD && alignment < LOW_BYTE
    ensures MetaOf(Entry(pageMetaptr, alignment)) == pageMetaptr &&
            AlignmentOf(Entry(pageMetaptr, alignment)) == alignment
  {
    var k: nat := 8;
    LowByteIsPow2(k);
    NoCommonBits(pageMetaptr, alignment, k);
    OrIsAdd(pageMetaptr * LOW_BYTE, alignment);
  }

  // ----- the size reserved -----

  /** Rounding up to whole system pages: `(x + (2^s - 1)) & ~(2^s - 1)`. */
  function RoundUp(x: nat, s: nat): nat {
    And((x + Pow2(s) - 1) % WORD, if Pow2(s) <= WORD then WORD - Pow2(s) else 0)
  }

  lemma {:induction false} HighMask(x: nat, k: nat, n: nat)
    requires k <= n && x < Pow2(n)
    ensures Pow2(k) <= Pow2(n) && And(x, Pow2(n) - Pow2(k)) == x - x % Pow2(k)
    decreases k
  {
    Pow2Monotonic(k, n);
    if k == 0 {
      MaskIsMod(x, n);
      OwnRemainder(x, Pow2(n));
    } else {
      HighMask(x / 2, k - 1, n - 1);
      HalfMod(x, Pow2(k - 1));
      AndEven(x, Pow2(n - 1) - Pow2(k - 1));
    }
  }

  lemma {:induction false} AndEven(x: nat, h: nat)
    ensures And(x, 2 * h) == 2 * And(x / 2, h)
  {
    if x > 0 && h > 0 {
      assert (2 * h) / 2 == h && (2 * h) % 2 == 0;
    } else {
      AndZero(x / 2);
      AndZero(h);
    }
  }

  lemma {:induction false} OwnRemainder(x: nat, m: nat)
    requires x < m
    ensures x % m == x && x % 1 == 0
  {
  }

  /** It is the next multiple. */
  lemma {:induction false} RoundUpBounds(x: nat, s: nat)
    requires s < 64 && x + Pow2(s) <= WORD
    ensures x <= RoundUp(x, s) < x + Pow2(s) && RoundUp(x, s) % Pow2(s) == 0
  {
    var n: nat := 64;
    WordIsPow2();
    Pow2Monotonic(s, n);
    var y, m := x + Pow2(s) - 1, Pow2(s);
    OwnRemainder(y, WORD);
    HighMask(y, s, n);
    RoundDown(y, m);
  }

  lemma {:induction false} RoundDown(y: nat, m: nat)
    requires m > 0
    ensures y - m < y - y % m <= y && (y - y % m) % m == 0
  {
    var q := y / m;
    MultipleMod(m, q);
    assert y - y % m == q * m;
  }

  /** What allocate_metadata maps, and deallocate_metadata unmaps. */
  function MetadataSize(size: nat, alignment: nat, bytes: nat, s: nat): nat {
    RoundUp(ShiftRight((size * bytes) % WORD, alignment), s)
  }

  // ----- the table -----

  /** Metadata of address `p`, by way of its page's entry. */
  function Lookup(entry: nat, p: nat, bytes: nat): nat {
    MetaOf(entry) + ShiftRight(p % PAGE_SIZE, AlignmentOf(entry)) * bytes
  }

  /** The entry of page `i` of a range. */
  function PageEntry(metaptr: nat, i: nat, alignment: nat, bytes: nat): nat {
    Entry(if metaptr == 0 then 0 else (metaptr + (ShiftRight(i * PAGE_SIZE, alignment) * bytes)) % WORD, alignment)
  }

  /** The pages of the range lead to its metadata. */
  ghost predicate Registered(table: seq<nat>, ptr: nat, size: nat, metaptr: nat, alignment: nat, bytes: nat) {
    |table| == PAGE_TABLE_SIZE && ptr + size <= PAGE_TABLE_SIZE * PAGE_SIZE &&
    forall p: nat {:trigger table[p]} :: ptr / PAGE_SIZE <= p < ptr / PAGE_SIZE + size / PAGE_SIZE ==>
      table[p] == PageEntry(metaptr, p - ptr / PAGE_SIZE, alignment, bytes)
  }

  /** The metadata of a whole range can be pointed at. */
  predicate RangeFits(size: nat, metaptr: nat, alignment: nat, bytes: nat) {
    0 < metaptr && (metaptr + ShiftRight(size, alignment) * bytes) * LOW_BYTE < WORD && alignment < 64
  }

  datatype Outcome = Done | Exit

  class MetaPagetable {
    /** FLAGS_METALLOC_METADATABYTES. */
    const bytes: nat
    var pageTable: array<nat>
    var isPageTableAlloced: bool

    constructor (bytes: nat)
      ensures this.bytes == bytes && !isPageTableAlloced && pageTable.Length == 0
    {
      this.bytes := bytes;
      pageTable := new nat[0];
      isPageTableAlloced := false;
    }

    ghost predicate Valid()
      reads this
    {
      isPageTableAlloced ==> pageTable.Length == PAGE_TABLE_SIZE
    }

    /** The table as it will be when it is next looked at. */
    function Table(): seq<nat>
      reads this, pageTable
    {
      if isPageTableAlloced then pageTable[..] else seq(PAGE_TABLE_SIZE, _ => 0)
    }

    method PageTableInit()
      requires Valid()
      modifies this
      ensures Valid() && isPageTableAlloced && Table() == old(Table())
      ensures old(isPageTableAlloced) ==> pageTable == old(pageTable)
      ensures !old(isPageTableAlloced) ==> fresh(pageTable)
    {
      if !isPageTableAlloced {
        pageTable := new nat[PAGE_TABLE_SIZE](_ => 0);
        isPageTableAlloced := true;
        assert pageTable[..] == seq(PAGE_TABLE_SIZE, _ => 0);
      }
    }

    /** Points the pages of a range at its metadata. */
    method SetEntries(ptr: nat, size: nat, metaptr: nat, alignment: nat) returns (r: Outcome)
      requires Valid() && ptr + size <= PAGE_TABLE_SIZE * PAGE_SIZE && alignment < 64
      modifies this, pageTable
      ensures Valid() && isPageTableAlloced
      ensures r == if size % PAGE_SIZE != 0 then Exit else Done
      ensures r == Exit ==> Table() == old(Table())
      ensures r == Done ==> Registered(Table(), ptr, size, metaptr, alignment, bytes)
      ensures r == Done ==>
              |Table()| == |old(Table())| == PAGE_TABLE_SIZE &&
              forall p: nat {:trigger Table()[p]} :: p < PAGE_TABLE_SIZE ==>
        Table()[p] == if ptr / PAGE_SIZE <= p < ptr / PAGE_SIZE + size / PAGE_SIZE
                      then PageEntry(metaptr, p - ptr / PAGE_SIZE, alignment, bytes) else old(Table())[p]
    {
      PageTableInit();
      if size % PAGE_SIZE != 0 {
        return Exit;
      }
      var page := ptr / PAGE_SIZE;
      var count := size / PAGE_SIZE;
      ghost var was, table := pageTable[..], pageTable;
      for i := 0 to count
        invariant isPageTableAlloced && pageTable == table && pageTable.Length == PAGE_TABLE_SIZE &&
                  page + count <= PAGE_TABLE_SIZE
        invariant forall p: nat :: p < PAGE_TABLE_SIZE ==>
          pageTable[p] == if page <= p < page + i then PageEntry(metaptr, p - page, alignment, bytes) else was[p]
      {
        var metaOffset := ShiftRight(i * PAGE_SIZE, alignment) * bytes;
        var pageMetaptr;
        if metaptr == 0 {
          pageMetaptr := 0;
        } else {
          pageMetaptr := (metaptr + metaOffset) % WORD;
        }
        pageTable[page + i] := Entry(pageMetaptr, alignment);
      }
      r := Done;
    }

    method GetEntry(ptr: nat) returns (entry: nat)
      requires Valid() && ptr < PAGE_TABLE_SIZE * PAGE_SIZE
      modifies this
      ensures Valid() && Table() == old(Table()) && |Table()| == PAGE_TABLE_SIZE && entry == Table()[ptr / PAGE_SIZE]
    {
      PageTableInit();
      entry := pageTable[ptr / PAGE_SIZE];
    }

    /** Where the metadata to unmap starts, and how much of it there is: for a range that
        was registered, the metadata it was registered with, in whole system pages. */
    method Deallocate(ptr: nat, size: nat, alignment: nat, s: nat) returns (metadata: nat, metadataSize: nat)
      requires Valid() && isPageTableAlloced && ptr < PAGE_TABLE_SIZE * PAGE_SIZE
      ensures forall metaptr: nat ::
                Registered(Table(), ptr, size, metaptr, alignment, bytes) && size >= PAGE_SIZE ==>
                RangeFits(size, metaptr, alignment, bytes) ==> metadata == metaptr
      ensures metadataSize == MetadataSize(size, alignment, bytes, s)
      ensures WholePages(size, alignment, bytes, s, metadataSize)
    {
      metadata := pageTable[ptr / PAGE_SIZE] / LOW_BYTE;
      metadataSize := MetadataSize(size, alignment, bytes, s);
      MetadataRounded(size, alignment, bytes, s);
      forall metaptr: nat | Registered(Table(), ptr, size, metaptr, alignment, bytes) && size >= PAGE_SIZE &&
                            RangeFits(size, metaptr, alignment, bytes)
        ensures metadata == metaptr
      {
        assert Table()[ptr / PAGE_SIZE] == PageEntry(metaptr, 0, alignment, bytes);
        FirstPage(size, metaptr, alignment, bytes);
      }
    }
  }

  /** The least number of whole system pages that holds one piece of metadata for each
      whole granule of the range. */
  predicate WholePages(size: nat, alignment: nat, bytes: nat, s: nat, reserved: nat) {
    var least := ShiftRight(size * bytes, alignment);
    s < 64 && size * bytes < WORD && least + Pow2(s) <= WORD ==>
    least <= reserved < least + Pow2(s) && reserved % Pow2(s) == 0
  }

  lemma {:induction false} MetadataRounded(size: nat, alignment: nat, bytes: nat, s: nat)
    ensures WholePages(size, alignment, bytes, s, MetadataSize(size, alignment, bytes, s))
  {
    var least := ShiftRight(size * bytes, alignment);
    if s < 64 && size * bytes < WORD && least + Pow2(s) <= WORD {
      OwnRemainder(size * bytes, WORD);
      RoundUpBounds(least, s);
    }
  }

  lemma {:induction false} FirstPage(size: nat, metaptr: nat, alignment: nat, bytes: nat)
    requires RangeFits(size, metaptr, alignment, bytes)
    ensures MetaOf(PageEntry(metaptr, 0, alignment, bytes)) == metaptr
  {
    PageEntryDecodes(size, metaptr, 0, alignment, bytes);
    ZeroShift(alignment);
  }

  // ----- looking metadata up -----

  lemma {:induction false} ShiftMonotonic(x: nat, y: nat, a: nat)
    requires x <= y
    ensures ShiftRight(x, a) <= ShiftRight(y, a)
  {
    DivisionMonotonic(x, y, Pow2(a));
  }

  lemma {:induction false} Scaled(x: nat, y: nat, b: nat)
    requires x <= y
    ensures x * b <= y * b
  {
    Distribute(y, x, b);
    ProductAtLeastZero(y - x, b);
  }

  lemma {:induction false} BelowWord(metaptr: nat, x: nat, y: nat)
    requires x <= y && (metaptr + y) * LOW_BYTE < WORD
    ensures (metaptr + x) * LOW_BYTE < WORD && (metaptr + x) % WORD == metaptr + x
  {
  }

  /** The page's entry can be read back. */
  lemma {:induction false} PageEntryDecodes(size: nat, metaptr: nat, i: nat, alignment: nat, bytes: nat)
    requires RangeFits(size, metaptr, alignment, bytes) && i * PAGE_SIZE <= size
    ensures MetaOf(PageEntry(metaptr, i, alignment, bytes)) == metaptr + ShiftRight(i * PAGE_SIZE, alignment) * bytes
    ensures AlignmentOf(PageEntry(metaptr, i, alignment, bytes)) == alignment
  {
    ShiftMonotonic(i * PAGE_SIZE, size, alignment);
    Scaled(ShiftRight(i * PAGE_SIZE, alignment), ShiftRight(size, alignment), bytes);
    BelowWord(metaptr, ShiftRight(i * PAGE_SIZE, alignment) * bytes, ShiftRight(size, alignment) * bytes);
    EntryDecodes(metaptr + ShiftRight(i * PAGE_SIZE, alignment) * bytes, alignment);
  }

  /** For every address of the range, its page's entry leads to the metadata at its
      distance from the start of the range. */
  lemma {:induction false} LookupIsDirect(base: nat, size: nat, metaptr: nat, alignment: nat, bytes: nat, p: nat)
    requires RangeFits(size, metaptr, alignment, bytes) && base % PAGE_SIZE == 0 && base <= p < base + size
    ensures p / PAGE_SIZE >= base / PAGE_SIZE
    ensures Lookup(PageEntry(metaptr, p / PAGE_SIZE - base / PAGE_SIZE, alignment, bytes), p, bytes)
         == metaptr + ShiftRight(p - base, alignment) * bytes
  {
    var i, off := p / PAGE_SIZE - base / PAGE_SIZE, p % PAGE_SIZE;
    assert p - base == i * PAGE_SIZE + off;
    PageEntryDecodes(size, metaptr, i, alignment, bytes);
    PageShift(i, off, alignment);
    Distribute(ShiftRight(i * PAGE_SIZE, alignment), ShiftRight(off, alignment), bytes);
  }

  /** With granules no larger than a page, it is inside what was reserved. */
  lemma {:induction false} LookupIsInside(base: nat, size: nat, metaptr: nat, alignment: nat, bytes: nat, s: nat,
                                          p: nat)
    requires alignment <= PAGE_SHIFT && size % PAGE_SIZE == 0 && base <= p < base + size
    requires size * bytes < WORD && s < 64 && ShiftRight(size * bytes, alignment) + Pow2(s) <= WORD
    ensures ShiftRight(p - base, alignment) * bytes + bytes <= MetadataSize(size, alignment, bytes, s)
  {
    var g := GranulesWhole(size, alignment, bytes);
    BelowGranules(p - base, g, Pow2(alignment), bytes);
    ReservesAll(size * bytes, alignment, s);
  }

  lemma {:induction false} ReservesAll(x: nat, alignment: nat, s: nat)
    requires x < WORD && s < 64 && ShiftRight(x, alignment) + Pow2(s) <= WORD
    ensures ShiftRight(x, alignment) <= RoundUp(ShiftRight(x % WORD, alignment), s)
  {
    RoundUpBounds(ShiftRight(x, alignment), s);
    OwnRemainder(x, WORD);
  }

  lemma {:induction false} BelowGranules(x: nat, g: nat, m: nat, bytes: nat)
    requires m > 0 && x < g * m
    ensures Quotient(x, m) * bytes + bytes <= g * bytes
  {
    if g > 0 {
      Distribute(g, 1, m);
      DivisionMonotonic(x, g * m - 1, m);
      DivisionUnique(g * m - 1, m, g - 1, m - 1);
      Scaled(Quotient(x, m), g - 1, bytes);
      Distribute(g, 1, bytes);
    }
  }

  /** A range of pages is a whole number of granules no larger than a page. */
  lemma {:induction false} GranulesWhole(size: nat, alignment: nat, bytes: nat) returns (g: nat)
    requires alignment <= PAGE_SHIFT && size % PAGE_SIZE == 0
    ensures size == g * Pow2(alignment) && ShiftRight(size * bytes, alignment) == g * bytes
  {
    var m, k, q := Pow2(alignment), Pow2(PAGE_SHIFT - alignment), size / PAGE_SIZE;
    PageIsPow2(PAGE_SHIFT);
    Pow2Add(PAGE_SHIFT - alignment, alignment);
    Associate(q, k, m);
    g := q * k;
    assert size == g * m;
    GranulesReserved(g, alignment, bytes);
  }

  /** One piece of metadata for each of `g` granules. */
  lemma {:induction false} GranulesReserved(g: nat, alignment: nat, bytes: nat)
    ensures ShiftRight((g * Pow2(alignment)) * bytes, alignment) == g * bytes
  {
    var m := Pow2(alignment);
    Associate(g, m, bytes);
    Associate(g, bytes, m);
    ExactDivision(g * bytes, m);
  }

  /** For granules of any size: everything is inside what is reserved exactly when there
      is a piece of metadata for each granule the range touches, the last included. */
  lemma {:induction false} InsideExactly(base: nat, size: nat, alignment: nat, bytes: nat, s: nat)
    requires size > 0
    ensures (forall p :: base <= p < base + size ==>
               MetadataInside(base, p, alignment, bytes, MetadataSize(size, alignment, bytes, s)))
       <==> (ShiftRight(size - 1, alignment) + 1) * bytes <= MetadataSize(size, alignment, bytes, s)
  {
    var reserved := MetadataSize(size, alignment, bytes, s);
    Distribute(ShiftRight(size - 1, alignment), 1, bytes);
    if MetadataInside(base, base + size - 1, alignment, bytes, reserved) {
      forall p | base <= p < base + size
        ensures MetadataInside(base, p, alignment, bytes, reserved)
      {
        ShiftMonotonic(p - base, size - 1, alignment);
        Scaled(ShiftRight(p - base, alignment), ShiftRight(size - 1, alignment), bytes);
      }
    }
  }

  /** That is so whenever the range is a whole number of granules. */
  lemma {:induction false} WholeGranulesInside(base: nat, g: nat, alignment: nat, bytes: nat, s: nat, p: nat)
    requires base <= p < base + g * Pow2(alignment) && (g * Pow2(alignment)) * bytes < WORD
    requires s < 64 && g * bytes + Pow2(s) <= WORD
    ensures MetadataInside(base, p, alignment, bytes, MetadataSize(g * Pow2(alignment), alignment, bytes, s))
  {
    GranulesReserved(g, alignment, bytes);
    BelowGranules(p - base, g, Pow2(alignment), bytes);
    ReservesAll((g * Pow2(alignment)) * bytes, alignment, s);
  }

  predicate MetadataInside(base: nat, p: int, alignment: nat, bytes: nat, reserved: nat)
    requires base <= p
  {
    ShiftRight(p - base, alignment) * bytes + bytes <= reserved
  }

  /** Nothing at all is reserved exactly when a granule is larger than all the metadata
      of the range put together. */
  lemma {:induction false} NothingReserved(size: nat, alignment: nat, bytes: nat, s: nat)
    requires size * bytes < WORD && s < 64 && ShiftRight(size * bytes, alignment) + Pow2(s) <= WORD
    ensures MetadataSize(size, alignment, bytes, s) == 0 <==> size * bytes < Pow2(alignment)
  {
    var x, m := size * bytes, Pow2(alignment);
    OwnRemainder(x, WORD);
    RoundUpBounds(ShiftRight(x, alignment), s);
    if x < m {
      DivisionUnique(x, m, 0, x);
      var r := RoundUp(0, s);
      if r > 0 {
        OwnRemainder(r, Pow2(s));
      }
    } else {
      DivisionMonotonic(m, x, m);
      DivisionUnique(m, m, 1, 0);
    }
  }

  /** One page at alignment 13, with one byte of metadata for each granule. */
  lemma {:induction false} OnePageOutside(base: nat, alignment: nat, s: nat)
    requires alignment == 13 && s < 64
    ensures MetadataSize(PAGE_SIZE, alignment, 1, s) == 0
    ensures !MetadataInside(base, base, alignment, 1, MetadataSize(PAGE_SIZE, alignment, 1, s))
  {
    PageIsPow2(PAGE_SHIFT);
    assert Pow2(alignment) == 2 * Pow2(PAGE_SHIFT);
    DivisionUnique(PAGE_SIZE, Pow2(alignment), 0, PAGE_SIZE);
    WordIsPow2();
    var k: nat := 63;
    Pow2Monotonic(s, k);
    NothingReserved(PAGE_SIZE, alignment, 1, s);
  }

  /** Registering a range and looking up any of its addresses, or giving its metadata
      back: the start and size are those that were allocated. */
  method RegisterThenUse(t: MetaPagetable, base: nat, size: nat, metaptr: nat, alignment: nat, s: nat, p: nat)
    returns (meta: nat, metadata: nat, metadataSize: nat)
    requires t.Valid() && base + size <= PAGE_TABLE_SIZE * PAGE_SIZE && base % PAGE_SIZE == 0 && size % PAGE_SIZE == 0
    requires RangeFits(size, metaptr, alignment, t.bytes) && base <= p < base + size
    modifies t, t.pageTable
    ensures meta == metaptr + ShiftRight(p - base, alignment) * t.bytes
    ensures metadata == metaptr && metadataSize == MetadataSize(size, alignment, t.bytes, s)
  {
    var r := t.SetEntries(base, size, metaptr, alignment);
    LookupIsDirect(base, size, metaptr, alignment, t.bytes, p);
    LookupIsDirect(base, size, metaptr, alignment, t.bytes, base);
    metadata, metadataSize := t.Deallocate(base, size, alignment, s);
    var entry := t.GetEntry(p);
    meta := Lookup(entry, p, t.bytes);
  }

  lemma {:induction false} ZeroShift(a: nat)
    ensures ShiftRight(0 * PAGE_SIZE, a) == 0
  {
    DivisionUnique(0, Pow2(a), 0, 0);
  }
}
