/**
  f_write_zero_mem of srcs/fatfs/vfs/vfs_jrnl_fat.c and the extension check of
  truncate and ftruncate around it.
 */
module ZeroFill {
  import opened Layout

  const BUF_SIZE_LIMIT: Word := 512

  datatype FResult = FrOk | FrDiskErr | FrInvalidParameter

  function Zeros(n: nat): (b: seq<Byte>)
    ensures |b| == n && forall i :: 0 <= i < n ==> b[i] == 0
  {
    seq(n, i => 0)
  }

  function Sum(xs: seq<nat>): nat
  {
    if xs == [] then 0 else Sum(xs[..|xs| - 1]) + xs[|xs| - 1]
  }

  lemma SumStep(xs: seq<nat>, x: nat)
    ensures Sum(xs + [x]) == Sum(xs) + x
  {
    assert (xs + [x])[..|xs|] == xs;
  }

  lemma ZerosAppend(a: nat, b: nat, n: nat, m: nat)
    requires b <= m <= n
    ensures Zeros(a) + Zeros(n)[..m][..b] == Zeros(a + b)
  {
  }

  /** `after` is `before` and then at most `limit` zeros. */
  predicate GrownByZeros(before: seq<Byte>, after: seq<Byte>, limit: nat)
  {
    && |before| <= |after| <= |before| + limit
    && after == before + Zeros(|after| - |before|)
  }

  lemma NothingYet(bytes: seq<Byte>, chunks: seq<nat>, limit: nat, bufSize: nat)
    ensures bytes == bytes + Zeros(0) && GrownByZeros(bytes, bytes, limit) && Chunked(chunks, chunks, bufSize)
  {
  }

  /** Zeros after zeros: `total` so far, `bw` more. */
  lemma GrownStep(before: seq<Byte>, mid: seq<Byte>, after: seq<Byte>, total: nat, bw: nat, limit: nat)
    requires mid == before + Zeros(total) && after == mid + Zeros(bw) && total + bw <= limit
    ensures after == before + Zeros(total + bw) && GrownByZeros(before, after, limit)
  {
  }

  /** Every chunk since `before` fits the buffer. */
  predicate Chunked(before: seq<nat>, after: seq<nat>, bufSize: nat)
  {
    before <= after && forall i :: |before| <= i < |after| ==> after[i] <= bufSize
  }

  lemma ChunkedStep(before: seq<nat>, mid: seq<nat>, n: nat, bufSize: nat)
    requires Chunked(before, mid, bufSize) && n <= bufSize
    ensures Chunked(before, mid + [n], bufSize)
  {
  }

  /** A file open for appending; `chunks` records the lengths f_write was asked for. */
  class File {
    var bytes: seq<Byte>
    ghost var chunks: seq<nat>
    ghost var shortWrites: nat  // writes that took less than they were given
    ghost var errors: nat       // failed writes and refused buffers

    /** f_write: may fail, and may write less than asked without failing. */
    method Write(data: seq<Byte>) returns (res: FResult, written: Word)
      requires |data| < TWO32
      modifies this
      ensures written <= |data| && bytes == old(bytes) + data[..written]
      ensures chunks == old(chunks) + [|data|]
      ensures shortWrites >= old(shortWrites) && (written == |data| <==> shortWrites == old(shortWrites))
      ensures errors >= old(errors) && (res == FrOk <==> errors == old(errors))
    {
      chunks := chunks + [|data|];
      written := |data|;
      if * {
        var w: Word := *;
        if 0 <= w < |data| {
          written := w;
          shortWrites := shortWrites + 1;
        }
      }
      bytes := bytes + data[..written];
      res := FrOk;
      if * {
        res := FrDiskErr;
        errors := errors + 1;
      }
    }
  }

  /** f_write of the first `n` bytes of the zeroed buffer. */
  method WriteChunk(f: File, buf: seq<Byte>, n: Word) returns (res: FResult, bw: Word)
    requires n <= |buf| && buf == Zeros(|buf|)
    modifies f
    ensures bw <= n && f.bytes == old(f.bytes) + Zeros(bw)
    ensures f.chunks == old(f.chunks) + [n] && Sum(f.chunks) == Sum(old(f.chunks)) + n
    ensures f.shortWrites >= old(f.shortWrites) && (bw == n <==> f.shortWrites == old(f.shortWrites))
    ensures f.errors >= old(f.errors) && (res == FrOk <==> f.errors == old(f.errors))
  {
    SumStep(f.chunks, n);
    res, bw := f.Write(buf[..n]);
    ZerosAppend(0, bw, |buf|, n);
    assert Zeros(0) + buf[..n][..bw] == buf[..n][..bw];
  }

  /**
    f_write_zero_mem. It succeeds exactly when nothing fails below. No chunk
    exceeds the buffer; on success the chunks add up to the requested size; the
    reported total is what was really written, all of it zero, and equals the
    requested size exactly when no write was short. Whatever fails, the file grew
    by zeros only, and by no more than the requested size.
   */
  method WriteZeros(f: File, size: Word, bufSize: Word) returns (res: FResult, written: Word)
    modifies f
    ensures size == 0 || bufSize == 0 ==> res == FrInvalidParameter && f.bytes == old(f.bytes)
    ensures size != 0 && bufSize != 0 ==> (res == FrOk <==> f.errors == old(f.errors))
    ensures f.errors >= old(f.errors) && f.shortWrites >= old(f.shortWrites)
    ensures GrownByZeros(old(f.bytes), f.bytes, size)
    ensures Chunked(old(f.chunks), f.chunks, bufSize)
    ensures res == FrOk ==>
      && f.bytes == old(f.bytes) + Zeros(written) && written <= size
      && Sum(f.chunks) == Sum(old(f.chunks)) + size
      && (written == size <==> f.shortWrites == old(f.shortWrites))
  {
    hide Zeros, Sum, GrownByZeros, Chunked, Add32, Sub32;
    written := 0;
    NothingYet(f.bytes, f.chunks, size, bufSize);
    if size <= 0 || bufSize <= 0 {
      return FrInvalidParameter, 0;
    }
    if * {
      f.errors := f.errors + 1;
      return FrDiskErr, 0;  // ff_memalloc
    }
    var buf := Zeros(bufSize);
    var bw;
    var i: Word := 0;
    res := FrOk;
    if size > bufSize {
      while i < Sub32(size, bufSize)
        invariant 0 <= i < size
        invariant Chunked(old(f.chunks), f.chunks, bufSize)
        invariant f.bytes == old(f.bytes) + Zeros(written) && written <= i
        invariant GrownByZeros(old(f.bytes), f.bytes, size)
        invariant Sum(f.chunks) == Sum(old(f.chunks)) + i
        invariant f.errors == old(f.errors) && f.shortWrites >= old(f.shortWrites)
        invariant written == i <==> f.shortWrites == old(f.shortWrites)
        invariant res == FrOk
        decreases size - i
      {
        ghost var mid := f.bytes;
        ChunkedStep(old(f.chunks), f.chunks, bufSize, bufSize);
        res, bw := WriteChunk(f, buf, bufSize);
        GrownStep(old(f.bytes), mid, f.bytes, written, bw, size);
        if res != FrOk {
          return;
        }
        written := Add32(written, bw);
        i := Add32(i, bufSize);
      }
    }
    if i < size {
      ghost var mid := f.bytes;
      ChunkedStep(old(f.chunks), f.chunks, size - i, bufSize);
      res, bw := WriteChunk(f, buf, Sub32(size, i));
      GrownStep(old(f.bytes), mid, f.bytes, written, bw, size);
      if res == FrOk {
        written := Add32(written, bw);
      }
    }
  }

  /** Extending a file by `extra` bytes, as truncate and ftruncate do it. */
  method Extend(f: File, extra: Word) returns (ok: bool)
    requires 0 < extra
    modifies f
    ensures ok <==> f.errors == old(f.errors) && f.shortWrites == old(f.shortWrites)
    ensures ok ==> f.bytes == old(f.bytes) + Zeros(extra)
    ensures GrownByZeros(old(f.bytes), f.bytes, extra)
    ensures Chunked(old(f.chunks), f.chunks, BUF_SIZE_LIMIT)
  {
    var res, written := WriteZeros(f, extra, if extra < BUF_SIZE_LIMIT then extra else BUF_SIZE_LIMIT);
    ok := res == FrOk && written == extra;
  }
}
