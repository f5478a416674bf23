/** Reading and writing a file position by position over the page cache (lib/file.cc:51-54 and 93-147).
    The loops cut a range at page boundaries and stop at the first page that serves less than it was
    asked for. The page cache is a map from block offset to page content; how much a call serves is a
    parameter. */
module FilePages {
  import opened Common

  type Byte = b: int | 0 <= b < 256

  /** How many bytes a page cache call serves, given block offset, offset into the page and size. */
  type Service = s: (nat, nat, nat) -> nat | forall b, o, n :: s(b, o, n) <= n
    witness (b: nat, o: nat, n: nat) => n

  ghost predicate Full(serve: Service) {
    forall b, o, n :: serve(b, o, n) == n
  }

  // round_down_to_block_size
  function RoundDown(p: nat, size: nat): nat
    requires size > 0
  {
    p - p % size
  }

  /** The page of a block, all zero before it was written. */
  function Page(pages: map<nat, seq<Byte>>, block: nat, size: nat): (r: seq<Byte>)
    ensures |r| == size
  {
    if block in pages && |pages[block]| == size then pages[block] else seq(size, _ => 0)
  }

  /** The byte at a file position. */
  function ByteAt(pages: map<nat, seq<Byte>>, size: nat, p: nat): Byte
    requires size > 0
  {
    Page(pages, RoundDown(p, size), size)[p % size]
  }

  lemma InPage(block: nat, o: nat, size: nat)
    requires o < size && block % size == 0
    ensures (block + o) % size == o && RoundDown(block + o, size) == block
  {
    ModUnique(block + o, size, block / size, o);
  }

  lemma NextBlock(block: nat, size: nat)
    requires size > 0 && block % size == 0
    ensures (block + size) % size == 0
  {
    ModUnique(block + size, size, block / size + 1, 0);
  }

  lemma OtherPage(block: nat, p: nat, size: nat)
    requires size > 0 && !(block <= p < block + size)
    ensures RoundDown(p, size) != block
  {
  }

  /** How far a transfer gets: up to the first page that serves less than it was asked for. */
  function Transferred(serve: Service, size: nat, block: nat, o: nat, count: nat): (r: nat)
    requires o < size
    ensures r <= count
    decreases count
  {
    if count == 0 then 0
    else
      var available := Min(count, size - o);
      var n := serve(block, o, available);
      if n < available then n else n + Transferred(serve, size, block + size, 0, count - available)
  }

  lemma {:induction false} FullServiceTransfersAll(serve: Service, size: nat, block: nat, o: nat, count: nat)
    requires o < size && Full(serve)
    ensures Transferred(serve, size, block, o, count) == count
    decreases count
  {
    if count > 0 {
      FullServiceTransfersAll(serve, size, block + size, 0, count - Min(count, size - o));
    }
  }

  /** `data` is what the file holds from `offset` on. */
  ghost predicate ReadsAs(pages: map<nat, seq<Byte>>, size: nat, offset: nat, data: seq<Byte>)
    requires size > 0
  {
    forall k :: 0 <= k < |data| ==> data[k] == ByteAt(pages, size, offset + k)
  }

  lemma PageReads(pages: map<nat, seq<Byte>>, size: nat, block: nat, o: nat, n: nat)
    requires o < size && o + n <= size && block % size == 0
    ensures ReadsAs(pages, size, block + o, Page(pages, block, size)[o..o + n])
  {
    var data := Page(pages, block, size)[o..o + n];
    forall k | 0 <= k < |data|
      ensures data[k] == ByteAt(pages, size, block + o + k)
    {
      InPage(block, o + k, size);
    }
  }

  lemma ReadsAppend(pages: map<nat, seq<Byte>>, size: nat, offset: nat, a: seq<Byte>, b: seq<Byte>)
    requires size > 0 && ReadsAs(pages, size, offset, a) && ReadsAs(pages, size, offset + |a|, b)
    ensures ReadsAs(pages, size, offset, a + b)
  {
    forall k | 0 <= k < |a + b|
      ensures (a + b)[k] == ByteAt(pages, size, offset + k)
    {
      assert k >= |a| ==> b[k - |a|] == ByteAt(pages, size, offset + |a| + (k - |a|));
    }
  }

  lemma InPageOf(offset: nat, size: nat)
    requires size > 0
    ensures RoundDown(offset, size) % size == 0 && RoundDown(offset, size) + offset % size == offset
  {
    ModUnique(offset - offset % size, size, offset / size, 0);
  }

  ghost predicate Written(pages: map<nat, seq<Byte>>, pages': map<nat, seq<Byte>>, size: nat, offset: nat,
                          data: seq<Byte>, p: nat)
    requires size > 0
  {
    ByteAt(pages', size, p) == if offset <= p < offset + |data| then data[p - offset] else ByteAt(pages, size, p)
  }

  /** The file changed by exactly `data` at `offset`. */
  ghost predicate Wrote(pages: map<nat, seq<Byte>>, pages': map<nat, seq<Byte>>, size: nat, offset: nat,
                        data: seq<Byte>)
    requires size > 0
  {
    forall p: nat :: Written(pages, pages', size, offset, data, p)
  }

  lemma PageWrote(pages: map<nat, seq<Byte>>, size: nat, block: nat, o: nat, data: seq<Byte>)
    requires o < size && o + |data| <= size && block % size == 0
    ensures var page := Page(pages, block, size);
      Wrote(pages, pages[block := page[..o] + data + page[o + |data|..]], size, block + o, data)
  {
    var page := Page(pages, block, size);
    var pages' := pages[block := page[..o] + data + page[o + |data|..]];
    var offset := block + o;
    forall p: nat
      ensures Written(pages, pages', size, offset, data, p)
    {
      if block <= p < block + size {
        InPage(block, p - block, size);
      } else {
        OtherPage(block, p, size);
      }
    }
  }

  lemma WroteAppend(p0: map<nat, seq<Byte>>, p1: map<nat, seq<Byte>>, p2: map<nat, seq<Byte>>, size: nat,
                    offset: nat, a: seq<Byte>, b: seq<Byte>)
    requires size > 0 && Wrote(p0, p1, size, offset, a) && Wrote(p1, p2, size, offset + |a|, b)
    ensures Wrote(p0, p2, size, offset, a + b)
  {
    forall p: nat
      ensures Written(p0, p2, size, offset, a + b, p)
    {
      assert Written(p0, p1, size, offset, a, p) && Written(p1, p2, size, offset + |a|, b, p);
    }
  }

  /** The same for the first n bytes of the next piece of a buffer. */
  lemma WroteMore(p0: map<nat, seq<Byte>>, p1: map<nat, seq<Byte>>, p2: map<nat, seq<Byte>>, size: nat,
                  offset: nat, buf: seq<Byte>, copied: nat, available: nat, n: nat)
    requires size > 0 && n <= available && copied + available <= |buf|
    requires Wrote(p0, p1, size, offset, buf[..copied])
    requires Wrote(p1, p2, size, offset + copied, buf[copied..copied + available][..n])
    ensures Wrote(p0, p2, size, offset, buf[..copied + n])
  {
    assert buf[copied..copied + available][..n] == buf[copied..copied + n];
    assert buf[..copied] + buf[copied..copied + n] == buf[..copied + n];
    WroteAppend(p0, p1, p2, size, offset, buf[..copied], buf[copied..copied + n]);
  }

  /** What was written is read back, and a read elsewhere gives what it gave before. */
  lemma WriteThenRead(pages: map<nat, seq<Byte>>, pages': map<nat, seq<Byte>>, size: nat, offset: nat, data: seq<Byte>,
                      start: nat, got: seq<Byte>)
    requires size > 0 && Wrote(pages, pages', size, offset, data) && ReadsAs(pages', size, start, got)
    ensures start == offset && |got| == |data| ==> got == data
    ensures start + |got| <= offset || offset + |data| <= start ==> ReadsAs(pages, size, start, got)
  {
    forall k | 0 <= k < |got|
      ensures got[k] == if offset <= start + k < offset + |data| then data[start + k - offset]
                        else ByteAt(pages, size, start + k)
    {
      assert Written(pages, pages', size, offset, data, start + k);
    }
  }

  class FileHandle {
    const size: nat   // kBlockSize
    var pages: map<nat, seq<Byte>>

    ghost predicate Valid() {
      size > 0
    }

    constructor (blockSize: nat)
      requires blockSize > 0
      ensures Valid() && size == blockSize && pages == map[]
    {
      size, pages := blockSize, map[];
    }

    /** The page cache's Read and Write, within one page. */
    method ReadPage(serve: Service, block: nat, count: nat, o: nat) returns (bytes: seq<Byte>)
      requires Valid() && o < size && o + count <= size && block % size == 0
      ensures |bytes| == serve(block, o, count) && ReadsAs(pages, size, block + o, bytes)
    {
      PageReads(pages, size, block, o, serve(block, o, count));
      bytes := Page(pages, block, size)[o..o + serve(block, o, count)];
    }

    method WritePage(serve: Service, block: nat, buf: seq<Byte>, o: nat) returns (n: nat)
      requires Valid() && o < size && o + |buf| <= size && block % size == 0
      modifies this
      ensures n == serve(block, o, |buf|) && Wrote(old(pages), pages, size, block + o, buf[..n])
    {
      n := serve(block, o, |buf|);
      var page := Page(pages, block, size);
      PageWrote(pages, size, block, o, buf[..n]);
      pages := pages[block := page[..o] + buf[..n] + page[o + n..]];
    }

    method Pread(serve: Service, count: nat, offset: nat) returns (data: seq<Byte>)
      requires Valid()
      ensures ReadsAs(pages, size, offset, data)
      ensures |data| == Transferred(serve, size, RoundDown(offset, size), offset % size, count)
    {
      var block: nat := RoundDown(offset, size);
      var o: nat := offset % size;
      data := [];
      ghost var goal := Transferred(serve, size, block, o, count);
      InPageOf(offset, size);
      while |data| < count
        invariant |data| <= count && o < size && block % size == 0
        invariant |data| < count ==> block + o == offset + |data|
        invariant ReadsAs(pages, size, offset, data)
        invariant |data| + Transferred(serve, size, block, o, count - |data|) == goal
        decreases count - |data|
      {
        var available := Min(count - |data|, size - o);
        var bytes := ReadPage(serve, block, available, o);
        ReadsAppend(pages, size, offset, data, bytes);
        data := data + bytes;
        if |bytes| < available {
          break;
        }
        NextBlock(block, size);
        block := block + size;
        o := 0;
      }
    }

    method Pwrite(serve: Service, buf: seq<Byte>, offset: nat) returns (copied: nat)
      requires Valid()
      modifies this
      ensures copied == Transferred(serve, size, RoundDown(offset, size), offset % size, |buf|)
      ensures Wrote(old(pages), pages, size, offset, buf[..copied])
    {
      var block: nat := RoundDown(offset, size);
      var o: nat := offset % size;
      copied := 0;
      ghost var goal := Transferred(serve, size, block, o, |buf|);
      InPageOf(offset, size);
      while copied < |buf|
        invariant copied <= |buf| && o < size && block % size == 0
        invariant copied < |buf| ==> block + o == offset + copied
        invariant Wrote(old(pages), pages, size, offset, buf[..copied])
        invariant copied + Transferred(serve, size, block, o, |buf| - copied) == goal
      {
        var available := Min(|buf| - copied, size - o);
        ghost var before := pages;
        var n := WritePage(serve, block, buf[copied..copied + available], o);
        WroteMore(old(pages), before, pages, size, offset, buf, copied, available, n);
        copied := copied + n;
        if n < available {
          break;
        }
        NextBlock(block, size);
        block := block + size;
        o := 0;
      }
    }

    /** A fully served write followed by a read of the same range gives the bytes back. */
    method WriteAndReadBack(serve: Service, buf: seq<Byte>, offset: nat) returns (data: seq<Byte>)
      requires Valid() && Full(serve)
      modifies this
      ensures data == buf && Wrote(old(pages), pages, size, offset, buf)
    {
      FullServiceTransfersAll(serve, size, RoundDown(offset, size), offset % size, |buf|);
      var copied := Pwrite(serve, buf, offset);
      assert buf[..copied] == buf;
      data := Pread(serve, |buf|, offset);
      WriteThenRead(old(pages), pages, size, offset, buf, offset, data);
    }
  }
}
