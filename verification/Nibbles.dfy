/** Sixteen greys on the Abaton and Apple backends: the scanner sends two pixels a byte, the frontend
    wants one a byte, and sane_read spreads them out in the frontend's own buffer, from its end. */
module Nibbles {
  import opened Streams

  /** What one scanner byte becomes: its high pixel and then its low one, each in the upper half of a
      byte. The Apple backend inverts them. */
  function Pixel(b: bv8, low: bool, inverted: bool): bv8 {
    var v := if low then b << 4 else b & 0xF0;
    if inverted then 255 - v else v
  }

  /** The Apple pixels are the complement of the Abaton ones. */
  lemma Complement(b: bv8, low: bool)
    ensures Pixel(b, low, true) == !Pixel(b, low, false)
  {
  }

  /** No pixel is lost: the byte can be put together again. */
  lemma BothPixels(b: bv8, c: bv8, inverted: bool)
    requires Pixel(b, false, inverted) == Pixel(c, false, inverted)
    requires Pixel(b, true, inverted) == Pixel(c, true, inverted)
    ensures b == c
  {
    assert b == (b & 0xF0) | (b << 4 >> 4) && c == (c & 0xF0) | (c << 4 >> 4);
  }

  /** A byte is sent for two pixels of sixteen levels, the left one in its upper half. It becomes two bytes of 16 times
      the level, or 255 less that. */
  lemma PixelLaw(b: bv8)
    ensures Pixel(b, false, false) as int == b as int / 16 * 16
    ensures Pixel(b, true, false) as int == b as int % 16 * 16
    ensures Pixel(b, false, true) as int == 255 - b as int / 16 * 16
    ensures Pixel(b, true, true) as int == 255 - b as int % 16 * 16
  {
    var high, low := b >> 4, b & 0x0F;
    assert b & 0xF0 == high << 4 && b << 4 == low << 4;
    assert high as int == b as int / 16 && low as int == b as int % 16;
    assert (high << 4) as int == high as int * 16 && (low << 4) as int == low as int * 16;
  }

  datatype Backend = Abaton | Apple

  /** A reply to GET_DATA_STATUS: whether there is a scan to read, whether the scanner is blocked, and the
      bytes in its buffer; and whether the user aborts while it is dealt with. */
  datatype Report = Report(dataLength: nat, blocked: bool, dataAv: nat, aborted: bool)

  class Scanner {
    const backend: Backend
    const gray16: bool
    /** The bytes the scanner sends, one by one, and how many of them have been read. */
    const data: nat -> bv8
    var used: nat
    var scanning: bool

    constructor (backend: Backend, gray16: bool, data: nat -> bv8)
      ensures this.backend == backend && this.gray16 == gray16 && this.data == data && used == 0 && scanning
    {
      this.backend, this.gray16, this.data := backend, gray16, data;
      used, scanning := 0, true;
    }

    /** Byte k of what the frontend should get for the scanner bytes from `start` on. */
    ghost function Wanted(start: nat, k: nat): bv8 {
      if gray16 then Pixel(data(start + k / 2), k % 2 == 1, backend == Apple) else data(start + k)
    }

    /** Byte k of the picture: in 16 greys the level of pixel k, of which the scanner sends two a byte, the left one in
        the upper half; spread to the levels of a byte, and inverted on the Apple scanners. Otherwise the byte
        itself. */
    ghost predicate Shows(k: nat, v: bv8) {
      if !gray16 then v == data(k)
      else
        var b := data(k / 2) as int;
        var level := if k % 2 == 0 then b / 16 else b % 16;
        v as int == if backend == Apple then 255 - 16 * level else 16 * level
    }

    lemma WantedShows(k: nat)
      ensures Shows(k, Wanted(0, k))
    {
      PixelLaw(data(k / 2));
      hide Pixel;
    }

    /** The frontend's bytes for n bytes of the scanner. */
    function Size(n: nat): nat {
      if gray16 then 2 * n else n
    }

    /** How many bytes to ask for when so many are there. */
    function Request(dataAv: nat, offset: nat, maxLen: nat): (rread: nat)
      requires offset <= maxLen
      ensures offset + Size(rread) <= maxLen && rread <= dataAv
      ensures rread < dataAv ==> maxLen - offset - Size(rread) < Size(1)
    {
      if gray16 then
        if dataAv * 2 + offset > maxLen then (maxLen - offset) / 2 else dataAv
      else if dataAv + offset > maxLen then maxLen - offset
      else dataAv
    }

    /** The READ command: the next n bytes of the scanner, at buf + offset. */
    method ReadData(buf: array<bv8>, offset: nat, n: nat)
      requires offset + n <= buf.Length
      modifies this`used, buf
      ensures used == old(used) + n
      ensures forall p | offset <= p < offset + n :: buf[p] == data(old(used) + p - offset)
      ensures forall p | 0 <= p < buf.Length && !(offset <= p < offset + n) :: buf[p] == old(buf[p])
    {
      for i := 0 to n
        invariant used == old(used) + i
        invariant forall p | offset <= p < offset + i :: buf[p] == data(old(used) + p - offset)
        invariant forall p | 0 <= p < buf.Length && !(offset <= p < offset + i) :: buf[p] == old(buf[p])
      {
        buf[offset + i] := data(used);
        used := used + 1;
      }
    }

    /** The loop that spreads n bytes at buf + offset over twice as many. It works from the end, so every
        byte is read before it is overwritten. */
    method Spread(buf: array<bv8>, offset: nat, n: nat, ghost start: nat)
      requires gray16 && offset % 2 == 0 && offset + 2 * n <= buf.Length
      requires forall p | offset <= p < offset + n :: buf[p] == data(start + offset / 2 + p - offset)
      modifies buf
      ensures forall p | offset <= p < offset + 2 * n :: buf[p] == Wanted(start, p)
      ensures forall p | 0 <= p < buf.Length && !(offset <= p < offset + 2 * n) :: buf[p] == old(buf[p])
    {
      var pos := offset + 2 * n - 1;
      for i := n downto 0
        invariant pos == offset + 2 * i - 1
        invariant forall p | offset <= p < offset + i :: buf[p] == data(start + offset / 2 + p - offset)
        invariant forall p | pos < p < offset + 2 * n :: buf[p] == Wanted(start, p)
        invariant forall p | 0 <= p < buf.Length && !(offset <= p < offset + 2 * n) :: buf[p] == old(buf[p])
      {
        var b := buf[offset + i];
        buf[pos] := Pixel(b, true, backend == Apple);
        buf[pos - 1] := Pixel(b, false, backend == Apple);
        pos := pos - 2;
      }
    }

    /** The most a request can be filled. */
    function Cap(maxLen: nat): (n: nat) {
      if gray16 then maxLen - maxLen % 2 else maxLen
    }

    /** What is there for the frontend in the first k reports together. */
    function Offered(reports: seq<Report>, k: nat): (n: nat)
      requires k <= |reports|
    {
      if k == 0 then 0
      else Offered(reports, k - 1) + if reports[k - 1].dataLength > 0 then Size(reports[k - 1].dataAv) else 0
    }

    /** What a request holds after k reports: all they offer, as far as it can be filled. */
    function Filled(reports: seq<Report>, k: nat, maxLen: nat): (n: nat)
      requires k <= |reports|
    {
      if Offered(reports, k) <= Cap(maxLen) then Offered(reports, k) else Cap(maxLen)
    }

    /** The request goes on after k reports: it is not full, and the scan has neither ended nor been aborted. */
    predicate GoesOn(reports: seq<Report>, k: nat, maxLen: nat)
      requires k <= |reports|
    {
      k == 0 || (reports[k - 1].dataLength > 0 && !reports[k - 1].aborted && Filled(reports, k, maxLen) < maxLen)
    }

    /** The reports of a scan that goes on offer enough for a request that can be filled. */
    predicate Fills(reports: seq<Report>, maxLen: nat) {
      && reports != [] && (forall k | 0 <= k < |reports| :: reports[k].dataLength > 0 && !reports[k].aborted)
      && maxLen <= Offered(reports, |reports|) && (gray16 ==> maxLen % 2 == 0)
    }

    /** sane_read, for the reports the scanner gives until it gives no more. Whatever they are, the frontend's
        buffer holds the pixels of exactly the bytes read from the scanner, in order, and nothing beyond maxLen
        is touched. The first report after which the request is full, the scan has ended, or the user has aborted
        it, is the last one that is asked for, and what the reports offer is what is read. In the 16-grey mode
        their number is even, so an odd maxLen is never filled. An abort counts before anything else. A call that
        is aborted, or fails for want of a report, reports none of what was read. */
    method SaneRead(buf: array<bv8>, maxLen: nat, reports: seq<Report>)
        returns (status: Status, len: nat, ghost filled: nat, ghost rounds: nat)
      requires maxLen <= buf.Length
      modifies this`used, this`scanning, buf
      ensures old(used) <= used && filled <= maxLen && filled == Size(used) - Size(old(used))
      ensures forall p | 0 <= p < filled :: buf[p] == Wanted(old(used), p)
      ensures forall p | filled <= p < buf.Length :: buf[p] == old(buf[p])
      ensures len == if status == Cancelled || status == Failed then 0 else filled
      ensures !old(scanning) ==> status == Eof && !scanning && rounds == 0 && filled == 0
      ensures rounds <= |reports| && forall k | 0 <= k < rounds :: GoesOn(reports, k, maxLen)
      ensures old(scanning) ==> filled == Filled(reports, rounds, maxLen)
      ensures old(scanning) ==> (status == Failed <==> GoesOn(reports, rounds, maxLen))
      ensures status == Failed ==> rounds == |reports| && scanning
      ensures old(scanning) && status != Failed ==>
                && rounds > 0 && (status == Cancelled <==> reports[rounds - 1].aborted)
                && (scanning <==> status != Cancelled && reports[rounds - 1].dataLength > 0)
                && (status != Cancelled ==> status == if scanning || filled > 0 then Good else Eof)
      ensures scanning && status != Failed ==> filled == maxLen
      ensures gray16 && maxLen % 2 == 1 ==> !scanning || status == Failed
      ensures old(scanning) && Fills(reports, maxLen) ==> scanning && status == Good
    {
      len, filled, status, rounds := 0, 0, Eof, 0;
      if !scanning {
        return;
      }
      var offset: nat, round: nat := 0, 0;
      var more, dataLength: nat, aborted := true, 0, false;
      while more && round < |reports|
        invariant round <= |reports| && old(used) <= used && offset <= maxLen && scanning
        invariant offset == Size(used) - Size(old(used)) == Filled(reports, round, maxLen)
        invariant forall p | 0 <= p < offset :: buf[p] == Wanted(old(used), p)
        invariant forall p | offset <= p < buf.Length :: buf[p] == old(buf[p])
        invariant more <==> GoesOn(reports, round, maxLen)
        invariant forall k | 0 <= k < round :: GoesOn(reports, k, maxLen)
        invariant round > 0 ==> dataLength == reports[round - 1].dataLength && aborted == reports[round - 1].aborted
      {
        dataLength, aborted := reports[round].dataLength, reports[round].aborted;
        offset := Round(buf, offset, maxLen, reports[round], old(used));
        RoundFills(reports, round, maxLen);
        more := offset < maxLen && dataLength > 0 && !aborted;
        round := round + 1;
      }
      filled, rounds := offset, round;
      if more {
        status := Failed;
      } else if aborted {
        scanning, status := false, Cancelled;
      } else if dataLength == 0 {
        scanning, status, len := false, if offset == 0 then Eof else Good, offset;
      } else {
        status, len := Good, offset;
      }
    }

    /** One round of the loop: a report, and the bytes read for it. */
    method Round(buf: array<bv8>, offset: nat, maxLen: nat, report: Report, ghost start: nat) returns (after: nat)
      requires offset <= maxLen <= buf.Length && start <= used && offset == Size(used) - Size(start)
      requires forall p | 0 <= p < offset :: buf[p] == Wanted(start, p)
      modifies this`used, buf
      ensures old(used) <= used && offset <= after <= maxLen && after == Size(used) - Size(start)
      ensures after == offset + if report.dataLength > 0 then Size(Request(report.dataAv, offset, maxLen)) else 0
      ensures forall p | 0 <= p < after :: buf[p] == Wanted(start, p)
      ensures forall p | after <= p < buf.Length :: buf[p] == old(buf[p])
    {
      after := offset;
      if report.dataLength > 0 && (backend == Abaton || report.blocked || report.dataAv > 0) {
        var rread := Request(report.dataAv, offset, maxLen);
        ReadData(buf, offset, rread);
        if gray16 {
          Spread(buf, offset, rread, start);
        }
        after := offset + Size(rread);
      }
    }

    lemma RoundFills(reports: seq<Report>, k: nat, maxLen: nat)
      requires k < |reports| && Filled(reports, k, maxLen) <= maxLen && GoesOn(reports, k, maxLen)
      ensures var offset, report := Filled(reports, k, maxLen), reports[k];
              Filled(reports, k + 1, maxLen) ==
              offset + if report.dataLength > 0 then Size(Request(report.dataAv, offset, maxLen)) else 0
      ensures Filled(reports, k + 1, maxLen) <= maxLen
    {
      OfferedEven(reports, k);
    }

    lemma OfferedEven(reports: seq<Report>, k: nat)
      requires k <= |reports|
      ensures gray16 ==> Offered(reports, k) % 2 == 0
    {
    }
  }

  /** A failure is that of the command that asks for a report. */
  datatype Status = Good | Eof | Cancelled | Failed

  /** A frontend reads a picture with requests of any size, until the scan ends or a call fails. What it gets are
      the pixels of all bytes of the scanner so far, in order: how it slices its requests makes no difference. Every
      request is filled while the scan goes on, and it goes on as long as the scanner offers enough. */
  method ReadPicture(s: Scanner, requests: seq<nat>, reports: seq<seq<Report>>)
      returns (picture: seq<bv8>, failed: bool)
    requires s.used == 0 && s.scanning && |reports| == |requests|
    modifies s
    ensures |picture| <= s.Size(s.used) && |picture| <= Total(requests, |requests|)
    ensures forall k | 0 <= k < |picture| :: picture[k] == s.Wanted(0, k)
    ensures forall k | 0 <= k < |picture| :: s.Shows(k, picture[k])
    ensures s.scanning && !failed ==> |picture| == s.Size(s.used) == Total(requests, |requests|)
    ensures (forall i | 0 <= i < |requests| :: s.Fills(reports[i], requests[i])) ==> s.scanning && !failed
  {
    hide Scanner.Fills, Scanner.GoesOn, Scanner.Filled, Scanner.Shows;
    picture, failed := [], false;
    var i := 0;
    while i < |requests| && s.scanning && !failed
      invariant i <= |requests| && |picture| <= s.Size(s.used) && |picture| <= Total(requests, i)
      invariant s.scanning && !failed ==> |picture| == s.Size(s.used) == Total(requests, i)
      invariant forall k | 0 <= k < |picture| :: picture[k] == s.Wanted(0, k)
      invariant (forall l | 0 <= l < i :: s.Fills(reports[l], requests[l])) ==> s.scanning && !failed
    {
      ghost var start := s.used;
      var buf := new bv8[requests[i]];
      var status, len, filled, rounds := s.SaneRead(buf, buf.Length, reports[i]);
      ghost var before := picture;
      picture := picture + buf[..len];
      forall k | |before| <= k < |picture|
        ensures picture[k] == s.Wanted(0, k)
      {
        assert picture[k] == buf[k - |before|] == s.Wanted(start, k - |before|);
      }
      failed := status == Failed;
      i := i + 1;
    }
    TotalMonotone(requests, i, |requests|);
    forall k | 0 <= k < |picture|
      ensures s.Shows(k, picture[k])
    {
      s.WantedShows(k);
    }
  }
}
