/** The bitmap of free slots of the shared page cache, used by one thread (src/core/scr_bitmap.h:64-107,
    src/core/bitmap.h:33-122 and 170-197, src/core/scr_bitmap.cc:5-37). A row is a 64-bit word, given as
    its bits from bit 0 up. What several threads do to it at once is in SlotBitmapRuns. */
module SlotBitmap {
  import opened Common

  const ROW_BITS := 64

  type Row = r: seq<bool> | |r| == ROW_BITS witness seq(ROW_BITS, _ => false)

  /** BITS_TO_LONGS: the fewest rows with a bit for every page. */
  function RowsFor(pages: nat): (rows: nat)
    ensures pages <= rows * ROW_BITS < pages + ROW_BITS
  {
    (pages + ROW_BITS - 1) / ROW_BITS
  }

  lemma SlotParts(row: nat, offset: nat)
    requires offset < ROW_BITS
    ensures (row * ROW_BITS + offset) / ROW_BITS == row && (row * ROW_BITS + offset) % ROW_BITS == offset
  {
  }

  lemma BelowPages(pages: nat, i: nat)
    requires i / ROW_BITS < RowsFor(pages)
    ensures i < pages + ROW_BITS && (pages % ROW_BITS == 0 ==> i < pages)
  {
  }

  /** Every page has a bit, and every row has the bit of a page. */
  lemma RowsCoverPages(pages: nat)
    ensures forall i: nat :: i < pages ==> i / ROW_BITS < RowsFor(pages)
    ensures forall row: nat :: row < RowsFor(pages) ==> row * ROW_BITS < pages
  {
  }

  /** ffsll: the lowest set bit at or above `from`. */
  function FirstSet(row: Row, from: nat): (r: Option<nat>)
    requires from <= ROW_BITS
    ensures r.None? <==> forall o :: from <= o < ROW_BITS ==> !row[o]
    ensures r.Some? ==> from <= r.value < ROW_BITS && row[r.value] && forall o :: from <= o < r.value ==> !row[o]
    decreases ROW_BITS - from
  {
    if from == ROW_BITS then None else if row[from] then Some(from) else FirstSet(row, from + 1)
  }

  /** How many bits are clear. */
  ghost function Clear(bits: seq<bool>): nat {
    if bits == [] then 0 else Clear(bits[..|bits| - 1]) + One(!bits[|bits| - 1])
  }

  ghost function AllClear(rows: seq<Row>): nat {
    if rows == [] then 0 else AllClear(rows[..|rows| - 1]) + Clear(rows[|rows| - 1])
  }

  lemma {:induction false} ClearUpdate(bits: seq<bool>, o: nat, b: bool)
    requires o < |bits|
    ensures Clear(bits[o := b]) == Clear(bits) + One(!b) - One(!bits[o])
  {
    var n := |bits| - 1;
    if o < n {
      ClearUpdate(bits[..n], o, b);
      assert bits[o := b][..n] == bits[..n][o := b];
    } else {
      assert bits[o := b][..n] == bits[..n];
    }
  }

  lemma {:induction false} AllClearUpdate(rows: seq<Row>, i: nat, o: nat, b: bool)
    requires i < |rows| && o < ROW_BITS
    ensures AllClear(rows[i := rows[i][o := b]]) == AllClear(rows) + One(!b) - One(!rows[i][o])
  {
    var n := |rows| - 1;
    if i < n {
      AllClearUpdate(rows[..n], i, o, b);
      assert rows[i := rows[i][o := b]][..n] == rows[..n][i := rows[i][o := b]];
    } else {
      ClearUpdate(rows[i], o, b);
      assert rows[i := rows[i][o := b]][..n] == rows[..n];
    }
  }

  lemma {:induction false} NoneClear(bits: seq<bool>)
    requires forall o :: 0 <= o < |bits| ==> bits[o]
    ensures Clear(bits) == 0
  {
    if bits != [] {
      NoneClear(bits[..|bits| - 1]);
    }
  }

  lemma {:induction false} NoneAllClear(rows: seq<Row>)
    requires forall i :: 0 <= i < |rows| ==> forall o :: 0 <= o < ROW_BITS ==> rows[i][o]
    ensures AllClear(rows) == 0
  {
    if rows != [] {
      NoneAllClear(rows[..|rows| - 1]);
      NoneClear(rows[|rows| - 1]);
    }
  }

  /** bitmap_testbit masks with a 32-bit one shifted by the offset; at offset 31 the mask is negative and
      is widened to bits 31 to 63. Offsets from 32 on are undefined in the source. */
  predicate TestBit(row: Row, offset: nat)
    requires offset < 32
  {
    if offset < 31 then row[offset] else exists o :: 31 <= o < ROW_BITS && row[o]
  }

  /** So the answer is the bit except at offset 31 when that bit is clear and a higher one is set. */
  lemma TestBitExactly(row: Row, offset: nat)
    requires offset < 32
    ensures TestBit(row, offset) == row[offset] <==> offset < 31 || row[31] || FirstSet(row, 32).None?
  {
  }

  /** A row with bit 32 set only: bit 31 is taken for set. */
  lemma TestBitMisreads()
    ensures var row: Row := seq(ROW_BITS, i => i == 32); TestBit(row, 31) && !row[31]
  {
    var row: Row := seq(ROW_BITS, i => i == 32);
    assert row[32];
  }

  class SharedBitmap {
    const numPages: nat
    const rows: array<Row>
    var count: int

    ghost predicate Valid()
      reads this, rows
    {
      rows.Length == RowsFor(numPages) && count == AllClear(rows[..])
    }

    /** Slot i, below the number of bits. */
    ghost predicate Free(i: nat)
      reads rows
      requires i / ROW_BITS < rows.Length
    {
      rows[i / ROW_BITS][i % ROW_BITS]
    }

    ghost predicate NoneFree()
      reads rows
    {
      forall i: nat :: i / ROW_BITS < rows.Length ==> !Free(i)
    }

    constructor (pages: nat)
      ensures Valid() && fresh(rows) && numPages == pages && count == 0
      ensures forall i: nat :: i / ROW_BITS < rows.Length ==> Free(i)
      ensures forall i: nat :: i < pages ==> i / ROW_BITS < rows.Length && Free(i)
    {
      RowsCoverPages(pages);
      numPages := pages;
      rows := new Row[RowsFor(pages)](_ => seq(ROW_BITS, _ => true));
      count := 0;
      new;
      NoneAllClear(rows[..]);
    }

    /** The nearest row after `start` with a set bit, and its lowest one. */
    method FindSetBit(start: nat) returns (r: Option<(nat, nat)>)
      ensures r.None? <==> forall i :: 0 <= i < rows.Length ==> FirstSet(rows[i], 0).None?
      ensures r.Some? ==>
        && r.value.0 < rows.Length && FirstSet(rows[r.value.0], 0) == Some(r.value.1)
        && forall i :: 0 <= i < rows.Length && FirstSet(rows[i], 0).Some? ==>
             (r.value.0 - start) % rows.Length <= (i - start) % rows.Length
    {
      var n := rows.Length;
      for i := 0 to n
        invariant forall j :: 0 <= j < n && FirstSet(rows[j], 0).Some? ==> i <= (j - start) % n
      {
        var row := (i + start) % n;
        ScanPosition(n, start, i, row);
        var offset := FirstSet(rows[row], 0);
        if offset.Some? {
          return Some((row, offset.value));
        }
        forall j | 0 <= j < n && FirstSet(rows[j], 0).Some?
          ensures i + 1 <= (j - start) % n
        {
          ScanPosition(n, start, i, j);
        }
      }
      return None;
    }

    /** The slot of the bit found, starting from the row that the count names. */
    method FindFreeSlot() returns (r: Option<nat>)
      requires rows.Length == RowsFor(numPages)
      ensures r.None? <==> NoneFree()
      ensures r.Some? ==> r.value / ROW_BITS < rows.Length && Free(r.value)
    {
      var found := FindSetBit(count % 0x1_0000_0000);
      if found.None? {
        forall i: nat | i / ROW_BITS < rows.Length
          ensures !Free(i)
        {
          assert FirstSet(rows[i / ROW_BITS], 0).None?;
        }
        return None;
      }
      var (row, offset) := found.value;
      var i := row * ROW_BITS + offset;
      SlotParts(row, offset);
      assert Free(i);
      return Some(i);
    }

    /** Clears or sets the bit of slot i. */
    method Put(i: nat, b: bool)
      requires i / ROW_BITS < rows.Length
      modifies rows
      ensures AllClear(rows[..]) == old(AllClear(rows[..])) + One(!b) - One(!old(Free(i)))
      ensures Free(i) == b
      ensures forall j: nat :: j / ROW_BITS < rows.Length && j != i ==> Free(j) == old(Free(j))
    {
      var row, offset := i / ROW_BITS, i % ROW_BITS;
      AllClearUpdate(rows[..], row, offset, b);
      rows[row] := rows[row][offset := b];
      assert rows[..] == old(rows[..])[row := old(rows[row])[offset := b]];
      forall j: nat | j / ROW_BITS < rows.Length && j != i
        ensures Free(j) == old(Free(j))
      {
        assert j / ROW_BITS == row ==> j % ROW_BITS != offset;
      }
    }

    /** Takes the named slot if it is free. */
    method ReserveSlot(i: nat) returns (succeed: bool)
      requires Valid() && i / ROW_BITS < rows.Length
      modifies rows, this`count
      ensures Valid() && succeed == old(Free(i)) && !Free(i)
      ensures forall j: nat :: j / ROW_BITS < rows.Length && j != i ==> Free(j) == old(Free(j))
    {
      succeed := rows[i / ROW_BITS][i % ROW_BITS];
      if succeed {
        Put(i, false);
        count := count + 1;
      }
    }

    /** Fails only when no slot is free; the slot it takes was free, and every other slot is as before.
        The slot is below the page count if that fills its rows. */
    method ReserveCacheNode() returns (r: Option<nat>)
      requires Valid()
      modifies rows, this`count
      ensures Valid()
      ensures r.None? <==> old(NoneFree())
      ensures r.None? ==> rows[..] == old(rows[..])
      ensures r.None? ==> forall i: nat :: i < numPages ==> i / ROW_BITS < rows.Length && !Free(i)
      ensures r.Some? ==> r.value / ROW_BITS < rows.Length && old(Free(r.value)) && !Free(r.value)
      ensures r.Some? && numPages % ROW_BITS == 0 ==> r.value < numPages
      ensures r.Some? ==>
        forall j: nat :: j / ROW_BITS < rows.Length && j != r.value ==> Free(j) == old(Free(j))
    {
      RowsCoverPages(numPages);
      r := FindFreeSlot();
      if r.Some? {
        BelowPages(numPages, r.value);
        Put(r.value, false);
        count := count + 1;
      }
    }

    /** A slot that was already free is counted down again, so the count stays right exactly when it was
        not. */
    method RecycleCacheNode(i: nat) returns (succeed: bool)
      requires Valid() && i / ROW_BITS < rows.Length
      modifies rows, this`count
      ensures succeed && Free(i) && count == old(count) - 1
      ensures Valid() <==> !old(Free(i))
      ensures forall j: nat :: j / ROW_BITS < rows.Length && j != i ==> Free(j) == old(Free(j))
    {
      if !rows[i / ROW_BITS][i % ROW_BITS] {
        Put(i, true);
      }
      count := count - 1;
      return true;
    }
  }

  /** Recycling a slot twice: the count is then one below the number of slots in use. */
  method RecycleSlotTwice(pages: nat) returns (bitmap: SharedBitmap)
    requires pages > 0
    ensures fresh(bitmap) && !bitmap.Valid()
  {
    bitmap := new SharedBitmap(pages);
    assert bitmap.Free(0);
    var slot := bitmap.ReserveCacheNode();
    var _ := bitmap.RecycleCacheNode(slot.value);
    var _ := bitmap.RecycleCacheNode(slot.value);
  }
}
