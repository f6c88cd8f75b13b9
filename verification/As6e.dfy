/** The reader of the AS6E backend. A child process sends the picture in chunks: the size of each over
    one pipe, its bytes over another, and -1 at the end. What does not fit into a request is carried over. */
module As6e {
  import opened Streams

  const SCAN_BUF_SIZE: nat := 32768

  datatype Status = Good | Eof | Cancelled

  class Scanner {
    /** What the child sends, and how much of it has been read from either pipe. */
    const chunks: seq<seq<Byte>>
    var sizesRead: nat
    var chunksRead: nat

    const bytesToRead: nat
    const scanBuffer: array<Byte>
    const lineBuffer: array<Byte>
    var scanBufferCount: nat
    var imageCounter: nat
    var scanning: bool
    var cancelled: bool
    /** All bytes the frontend has been given. */
    ghost var delivered: seq<Byte>

    ghost predicate Sound() {
      && scanBuffer.Length == lineBuffer.Length == SCAN_BUF_SIZE && scanBuffer != lineBuffer
      && forall k | 0 <= k < |chunks| :: |chunks[k]| <= SCAN_BUF_SIZE
    }

    ghost function Carry(): seq<Byte>
      requires scanBufferCount <= scanBuffer.Length
      reads this, scanBuffer
    {
      scanBuffer[..scanBufferCount]
    }

    /** What has been read from the pipe is what has been delivered and what is carried over; the counter
        counts the delivered bytes; the child is never asked for more than it sends; and when the scan is over,
        there is nothing left that the frontend should still get. */
    ghost predicate Valid()
      reads this, scanBuffer
    {
      && Sound() && scanBufferCount <= SCAN_BUF_SIZE && chunksRead <= |chunks|
      && Concat(chunks, chunksRead) == delivered + Carry()
      && imageCounter == |delivered|
      && (scanning ==> sizesRead == chunksRead)
      && (!scanning ==> imageCounter >= bytesToRead || (scanBufferCount == 0 && chunksRead == |chunks|))
    }

    /** The state sane_start sets up. */
    constructor (chunks: seq<seq<Byte>>, bytesToRead: nat)
      requires forall k | 0 <= k < |chunks| :: |chunks[k]| <= SCAN_BUF_SIZE
      ensures Valid() && this.chunks == chunks && this.bytesToRead == bytesToRead
      ensures scanning && !cancelled && delivered == [] && chunksRead == 0
      ensures fresh(scanBuffer) && fresh(lineBuffer)
    {
      this.chunks, this.bytesToRead := chunks, bytesToRead;
      sizesRead, chunksRead, scanBufferCount, imageCounter := 0, 0, 0, 0;
      scanning, cancelled, delivered := true, false, [];
      scanBuffer := new Byte[SCAN_BUF_SIZE];
      lineBuffer := new Byte[SCAN_BUF_SIZE];
    }

    /** The next number on the control pipe. There is one: the reader never waits for good. */
    method ReadSize() returns (written: int)
      requires sizesRead <= |chunks|
      modifies this`sizesRead
      ensures written == if old(sizesRead) < |chunks| then |chunks[old(sizesRead)]| else -1
      ensures sizesRead == old(sizesRead) + 1
    {
      written := if sizesRead < |chunks| then |chunks[sizesRead]| else -1;
      sizesRead := sizesRead + 1;
    }

    /** The loop that reads a chunk from the data pipe, in pieces of any size. Nothing is carried over
        when this happens. */
    method ReadChunk(written: nat)
      requires Sound() && chunksRead < |chunks| && written == |chunks[chunksRead]| && scanBufferCount == 0
      modifies this`chunksRead, lineBuffer
      ensures chunksRead == old(chunksRead) + 1 && lineBuffer[..written] == chunks[old(chunksRead)]
    {
      ghost var chunk := chunks[chunksRead];
      var linebufcounter: nat := 0;
      while linebufcounter < written
        invariant linebufcounter <= written
        invariant forall i | 0 <= i < linebufcounter :: lineBuffer[i] == chunk[i]
        modifies lineBuffer
      {
        var bytesRead: nat :| 1 <= bytesRead <= written - linebufcounter;
        ReadPiece(linebufcounter, bytesRead);
        linebufcounter := linebufcounter + bytesRead;
      }
      chunksRead := chunksRead + 1;
    }

    /** One read from the data pipe. */
    method ReadPiece(at: nat, n: nat)
      requires Sound() && chunksRead < |chunks| && at + n <= |chunks[chunksRead]|
      modifies lineBuffer
      ensures forall i | at <= i < at + n :: lineBuffer[i] == chunks[chunksRead][i]
      ensures forall i | 0 <= i < lineBuffer.Length && !(at <= i < at + n) :: lineBuffer[i] == old(lineBuffer[i])
    {
      for i := at to at + n
        invariant forall k | at <= k < i :: lineBuffer[k] == chunks[chunksRead][k]
        invariant forall k | 0 <= k < lineBuffer.Length && !(at <= k < i) :: lineBuffer[k] == old(lineBuffer[k])
      {
        lineBuffer[i] := chunks[chunksRead][i];
      }
    }

    /** What is carried over goes to the frontend first; what still does not fit moves down. */
    method TakeCarry(buf: array<Byte>, maxLen: nat) returns (len: nat)
      requires Sound() && scanBufferCount <= SCAN_BUF_SIZE && maxLen <= buf.Length
      requires buf != scanBuffer && buf != lineBuffer
      modifies this`scanBufferCount, buf, scanBuffer
      ensures len == if old(scanBufferCount) <= maxLen then old(scanBufferCount) else maxLen
      ensures scanBufferCount == old(scanBufferCount) - len <= scanBuffer.Length
      ensures buf[..len] + Carry() == old(Carry())
    {
      ghost var carry := Carry();
      if scanBufferCount <= maxLen {
        CopyBytes(buf, 0, scanBuffer, 0, scanBufferCount);
        len := scanBufferCount;
        scanBufferCount := 0;
      } else {
        CopyBytes(buf, 0, scanBuffer, 0, maxLen);
        assert buf[..maxLen] == carry[..maxLen];
        MoveDown(maxLen);
        len := maxLen;
      }
      assert buf[..len] == carry[..len] && Carry() == carry[len..];
    }

    /** The first n bytes that are carried over are gone, and the others move down. */
    method MoveDown(n: nat)
      requires n <= scanBufferCount <= scanBuffer.Length
      modifies this`scanBufferCount, scanBuffer
      ensures scanBufferCount == old(scanBufferCount) - n && Carry() == old(Carry()[n..])
    {
      ghost var carry := Carry();
      for i := n to scanBufferCount
        invariant forall k | 0 <= k < i - n :: scanBuffer[k] == carry[k + n]
        invariant forall k | i - n <= k < scanBufferCount :: scanBuffer[k] == carry[k]
        modifies scanBuffer
      {
        scanBuffer[i - n] := scanBuffer[i];
      }
      scanBufferCount := scanBufferCount - n;
    }

    /** A chunk goes to the frontend as far as there is room, and the rest is carried over. */
    method PutChunk(buf: array<Byte>, at: nat, maxLen: nat, written: nat) returns (len: nat)
      requires Sound() && written <= SCAN_BUF_SIZE && at < maxLen <= buf.Length && scanBufferCount == 0
      requires buf != scanBuffer && buf != lineBuffer
      modifies this`scanBufferCount, buf, scanBuffer
      ensures at <= len <= maxLen && scanBufferCount <= SCAN_BUF_SIZE == scanBuffer.Length
      ensures len < maxLen ==> scanBufferCount == 0
      ensures buf[..len] + Carry() == old(buf[..at]) + old(lineBuffer[..written])
    {
      ghost var all := buf[..at] + lineBuffer[..written];
      if written <= maxLen - at {
        CopyBytes(buf, at, lineBuffer, 0, written);
        len := at + written;
      } else {
        CopyBytes(buf, at, lineBuffer, 0, maxLen - at);
        CopyBytes(scanBuffer, 0, lineBuffer, maxLen - at, written - (maxLen - at));
        scanBufferCount := written - (maxLen - at);
        len := maxLen;
      }
      assert buf[..len] + Carry() == all;
    }

    /** Bytes go to the frontend. */
    method Deliver(buf: array<Byte>, len: nat)
      requires len <= buf.Length
      modifies this`imageCounter, this`delivered
      ensures imageCounter == old(imageCounter) + len && delivered == old(delivered) + buf[..len]
    {
      imageCounter := imageCounter + len;
      delivered := delivered + buf[..len];
    }

    /** A chunk is read and passed on. */
    method TakeChunk(buf: array<Byte>, at: nat, maxLen: nat, written: nat) returns (len: nat)
      requires Sound() && chunksRead < |chunks| && written == |chunks[chunksRead]|
      requires at < maxLen <= buf.Length && scanBufferCount == 0 && buf != scanBuffer && buf != lineBuffer
      requires Concat(chunks, chunksRead) == delivered + buf[..at]
      modifies this`chunksRead, this`scanBufferCount, buf, scanBuffer, lineBuffer
      ensures at <= len <= maxLen && scanBufferCount <= SCAN_BUF_SIZE && (len < maxLen ==> scanBufferCount == 0)
      ensures chunksRead == old(chunksRead) + 1
      ensures Concat(chunks, chunksRead) == delivered + buf[..len] + Carry()
    {
      ghost var before, chunk := buf[..at], chunks[chunksRead];
      ReadChunk(written);
      assert buf[..at] == before;
      len := PutChunk(buf, at, maxLen, written);
      assert Concat(chunks, chunksRead) == delivered + before + chunk == delivered + (before + chunk);
    }

    /** The loop of sane_read: chunks are read until the request is filled or the child is through. */
    method Fill(buf: array<Byte>, maxLen: nat, at: nat) returns (status: Status, len: nat)
      requires Sound() && scanning && scanBufferCount <= SCAN_BUF_SIZE && sizesRead == chunksRead <= |chunks|
      requires at <= maxLen <= buf.Length && (at < maxLen ==> scanBufferCount == 0)
      requires buf != scanBuffer && buf != lineBuffer
      requires Concat(chunks, chunksRead) == delivered + buf[..at] + Carry() && imageCounter == |delivered|
      modifies this, buf, scanBuffer, lineBuffer
      ensures len <= maxLen && status != Eof && (status == Good ==> Valid())
      ensures status == Good ==> delivered == old(delivered) + buf[..len]
      ensures status == Good && len < maxLen ==> !scanning && chunksRead == |chunks| && scanBufferCount == 0
      ensures status == Cancelled ==> cancelled && delivered == old(delivered) && !scanning && scanBufferCount == 0
      ensures cancelled == old(cancelled)
    {
      hide Concat;
      len := at;
      while len < maxLen
        invariant Sound() && scanning && scanBufferCount <= SCAN_BUF_SIZE && sizesRead == chunksRead <= |chunks|
        invariant len <= maxLen && (len < maxLen ==> scanBufferCount == 0)
        invariant Concat(chunks, chunksRead) == delivered + buf[..len] + Carry()
        invariant delivered == old(delivered) && imageCounter == |delivered| && cancelled == old(cancelled)
        decreases |chunks| - chunksRead
      {
        var written := ReadSize();
        if cancelled && written == 0 {
          var _ := ReadSize();
          scanning := false;
          return Cancelled, len;
        }
        if written == -1 {
          Deliver(buf, len);
          scanning := false;
          return Good, len;
        }
        len := TakeChunk(buf, len, maxLen, written);
      }
      Deliver(buf, len);
      return Good, len;
    }

    /** sane_read. What it returns continues what it returned before, and a request that is not filled is
        the last one: with it the frontend has all chunks. */
    method SaneRead(buf: array<Byte>, maxLen: nat) returns (status: Status, len: nat)
      requires Valid() && maxLen <= buf.Length && buf != scanBuffer && buf != lineBuffer
      modifies this, buf, scanBuffer, lineBuffer
      ensures len <= maxLen && (status != Cancelled ==> Valid())
      ensures status == Good ==> delivered == old(delivered) + buf[..len]
      ensures status == Good && len < maxLen ==> !scanning && delivered == Concat(chunks, |chunks|)
      ensures status == Eof ==> len == 0 && !scanning && delivered == old(delivered)
      ensures status == Eof <==> old(imageCounter) >= bytesToRead || !old(scanning)
      ensures status == Cancelled ==> cancelled && delivered == old(delivered) && !scanning && scanBufferCount == 0
      ensures cancelled == old(cancelled)
    {
      hide Concat;
      if imageCounter >= bytesToRead {
        if scanning {
          var _ := ReadSize();
        }
        scanning := false;
        return Eof, 0;
      }
      len := 0;
      if scanBufferCount > 0 {
        len := TakeCarry(buf, maxLen);
        if scanBufferCount > 0 {
          assert Concat(chunks, chunksRead) == delivered + (buf[..len] + Carry());
          Deliver(buf, len);
          return Good, len;
        }
      } else if !scanning {
        return Eof, 0;
      }
      status, len := Fill(buf, maxLen, len);
    }
  }

  /** What a frontend has after k requests, of all that the child sends: every request is filled as far as there is
      something left, as long as the announced number of bytes has not been reached. */
  function Given(requests: seq<nat>, k: nat, all: nat, announced: nat): (n: nat)
    requires k <= |requests|
    ensures n <= all && n <= Total(requests, k)
  {
    if k == 0 then 0
    else
      var before := Given(requests, k - 1, all, announced);
      if before >= announced then before
      else if before + requests[k - 1] < all then before + requests[k - 1]
      else all
  }

  lemma {:induction false} GivenStays(requests: seq<nat>, j: nat, k: nat, all: nat, announced: nat)
    requires j <= k <= |requests|
    requires Given(requests, j, all, announced) >= announced || Given(requests, j, all, announced) == all
    ensures Given(requests, k, all, announced) == Given(requests, j, all, announced)
  {
    if j < k {
      GivenStays(requests, j, k - 1, all, announced);
    }
  }

  /** A frontend reads until it is told to stop, with requests of any size. Whatever the chunks, the pieces
      they came in, and the requests: the picture is the start of what the child sends, and all of it when
      the child sends as many bytes as announced, or fewer. How much it is, is a function of the requests, and
      the first request after the announced number of bytes is told the end. */
  method ReadPicture(chunks: seq<seq<Byte>>, bytesToRead: nat, requests: seq<nat>)
      returns (picture: seq<Byte>, ended: bool)
    requires forall k | 0 <= k < |chunks| :: |chunks[k]| <= SCAN_BUF_SIZE
    ensures picture <= Concat(chunks, |chunks|)
    ensures ended ==> |picture| >= bytesToRead || picture == Concat(chunks, |chunks|)
    ensures ended && |Concat(chunks, |chunks|)| <= bytesToRead ==> picture == Concat(chunks, |chunks|)
    ensures ended || picture == Concat(chunks, |chunks|) || |picture| == Total(requests, |requests|)
    ensures |picture| == Given(requests, |requests|, |Concat(chunks, |chunks|)|, bytesToRead)
    ensures |picture| <= Total(requests, |requests|)
    ensures var all := |Concat(chunks, |chunks|)|;
            !ended ==> forall k | 0 <= k < |requests| :: Given(requests, k, all, bytesToRead) < bytesToRead
  {
    hide Concat;
    var s := new Scanner(chunks, bytesToRead);
    ghost var all := |Concat(chunks, |chunks|)|;
    picture, ended := [], false;
    var i := 0;
    while i < |requests| && !ended
      invariant s.Valid() && fresh(s) && fresh(s.scanBuffer) && fresh(s.lineBuffer) && !s.cancelled
      invariant s.chunks == chunks && s.bytesToRead == bytesToRead && picture == s.delivered
      invariant i <= |requests| && picture <= Concat(chunks, |chunks|)
      invariant ended ==> !s.scanning
      invariant ended || picture == Concat(chunks, |chunks|) || |picture| == Total(requests, i)
      invariant |picture| == Given(requests, i, all, bytesToRead)
      invariant !ended ==> forall k | 0 <= k < i :: Given(requests, k, all, bytesToRead) < bytesToRead
      invariant !s.scanning ==> |picture| >= bytesToRead || |picture| == all
    {
      var buf := new Byte[requests[i]];
      var status, len := s.SaneRead(buf, buf.Length);
      if status == Good {
        picture := picture + buf[..len];
        ConcatPrefix(chunks, s.chunksRead, |chunks|);
        assert picture <= Concat(chunks, s.chunksRead);
      } else {
        ended := true;
      }
      i := i + 1;
    }
    if ended {
      GivenStays(requests, i, |requests|, all, bytesToRead);
    }
  }
}
