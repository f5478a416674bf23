/** The loop that flushes the cache lines of an address range (src/common/helper.cc:101-113). */
module CacheFlush {

  const LINE := 64

  /** The line at this address holds a byte of [addr, addr + size). */
  predicate Touches(line: int, addr: nat, size: nat) {
    line < addr + size && addr < line + LINE
  }

  /** The lines flushed, in order. Each line that holds a byte of the range is flushed once and no other
      is, except that an empty range that starts inside a line flushes that line. */
  method Flush(addr: nat, size: nat) returns (lines: seq<nat>)
    ensures forall i :: 0 <= i < |lines| ==> lines[i] % LINE == 0
    ensures forall i, j :: 0 <= i < j < |lines| ==> lines[i] < lines[j]
    ensures size > 0 ==> forall line: nat :: line % LINE == 0 ==> (line in lines <==> Touches(line, addr, size))
    ensures size == 0 ==> forall line: nat :: line in lines <==> addr % LINE != 0 && line == addr - addr % LINE
  {
    var start := addr - addr % LINE;
    var end := addr + size;
    var line: nat := start;
    lines := [];
    while line < end
      invariant line % LINE == 0 && start <= line
      invariant |lines| * LINE == line - start
      invariant forall i :: 0 <= i < |lines| ==> lines[i] == start + i * LINE && lines[i] < end
    {
      lines := lines + [line];
      line := line + LINE;
    }
    assert |lines| > 1 ==> lines[1] == start + LINE;
    forall l: nat | l % LINE == 0 && Touches(l, addr, size)
      ensures l in lines
    {
      assert l >= start;
      assert lines[(l - start) / LINE] == l;
    }
  }
}
