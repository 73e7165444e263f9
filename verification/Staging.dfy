/**
 * Staging a download in the scratch partition: bytes arrive in reads of any
 * size, are collected in a sector buffer, and go to flash a sector at a time.
 */
module Staging {
  import opened Bits
  import opened Bytes
  import opened Crc

  const SECTOR := 4096

  /** What the download loop takes: whole reads, until the announced size is reached or the stream ends. */
  function Taken(chunks: seq<seq<bv8>>, total: int, got: seq<bv8>): (data: seq<bv8>)
    ensures got <= data
  {
    if |got| >= total || chunks == [] then got else Taken(chunks[1..], total, got + chunks[0])
  }

  /** The first `k` reads, put together. */
  function Reads(chunks: seq<seq<bv8>>, k: nat): seq<bv8>
    requires k <= |chunks|
  {
    if k == 0 then [] else Reads(chunks, k - 1) + chunks[k - 1]
  }

  lemma {:induction false} ReadsTail(chunks: seq<seq<bv8>>, k: nat)
    requires k < |chunks|
    ensures Reads(chunks, k + 1) == chunks[0] + Reads(chunks[1..], k)
  {
    if k > 0 {
      ReadsTail(chunks, k - 1);
    }
  }

  /** It stops with the first read that brings the announced size, or with the end of the stream. */
  lemma {:induction false} TakenIsShortest(chunks: seq<seq<bv8>>, total: int, got: seq<bv8>) returns (k: nat)
    ensures k <= |chunks| && Taken(chunks, total, got) == got + Reads(chunks, k)
    ensures k == |chunks| || |got + Reads(chunks, k)| >= total
    ensures forall j: nat :: j < k ==> |got + Reads(chunks, j)| < total
    decreases |chunks|
  {
    k := 0;
    if |got| < total && chunks != [] {
      var k1 := TakenIsShortest(chunks[1..], total, got + chunks[0]);
      k := k1 + 1;
      forall j: nat | j < |chunks| ensures got + Reads(chunks, j + 1) == got + chunks[0] + Reads(chunks[1..], j) {
        ReadsTail(chunks, j);
      }
      forall j: nat | j < k ensures |got + Reads(chunks, j)| < total {
        if j > 0 { assert |got + chunks[0] + Reads(chunks[1..], j - 1)| < total; }
      }
    }
  }

  /** Every full sector among the first `n` bytes can be written: the write works and lies in the partition. */
  ghost predicate FullSectors(works: nat -> bool, n: nat, size: nat) {
    forall k: nat :: (k + 1) * SECTOR <= n ==> works(k) && (k + 1) * SECTOR <= size
  }

  lemma OneMoreByte(works: nat -> bool, k: nat, fill: nat, size: nat)
    requires fill < SECTOR && FullSectors(works, k * SECTOR + fill, size)
    ensures FullSectors(works, k * SECTOR + fill + 1, size)
            <==> (fill + 1 == SECTOR ==> works(k) && (k + 1) * SECTOR <= size)
  {
    if fill + 1 < SECTOR || (works(k) && (k + 1) * SECTOR <= size) {
      forall j: nat {:trigger works(j)} | (j + 1) * SECTOR <= k * SECTOR + fill + 1
        ensures works(j) && (j + 1) * SECTOR <= size
      {
        assert (j + 1) * SECTOR <= k * SECTOR + fill || (j == k && fill + 1 == SECTOR);
      }
    }
  }

  function RoundUp(x: nat, unit: nat): nat
    requires unit > 0
  {
    (x + unit - 1) / unit * unit
  }

  lemma RoundUpSector(x: nat)
    ensures x <= RoundUp(x, SECTOR) < x + SECTOR && RoundUp(x, SECTOR) % SECTOR == 0
  {
  }

  /** Below a multiple of the sector size, rounding a part of the sector up to four stays below it. */
  lemma TailFits(k: nat, fill: nat, end: nat)
    requires end % SECTOR == 0 && fill < SECTOR && k * SECTOR + fill <= end
    ensures k * SECTOR + RoundUp(fill, 4) <= end && fill <= RoundUp(fill, 4) <= SECTOR
  {
    var e, u := end / SECTOR, (fill + 3) / 4;
    assert end == SECTOR * e && fill <= 4 * u < fill + 4;
    assert u < 1024 * (e - k) + 1;
  }

  lemma NextByte(got: seq<bv8>, chunk: seq<bv8>, i: nat)
    requires i < |chunk|
    ensures got + chunk[..i + 1] == (got + chunk[..i]) + [chunk[i]]
  {
  }

  lemma TailInPlace(f: seq<bv8>, buffer: seq<bv8>, got: seq<bv8>, off: nat, fill: nat)
    requires |got| == off + fill && fill <= |buffer| && off + |buffer| <= |f|
    requires f[..off] == got[..off] && f[off..off + |buffer|] == buffer && buffer[..fill] == got[off..]
    ensures f[..|got|] == got
  {
    assert f[off..off + fill] == f[off..off + |buffer|][..fill];
    assert f[..off + fill] == f[..off] + f[off..off + fill];
    assert got == got[..off] + got[off..];
  }

  class Stager {
    const flash: array<bv8>
    const sect: array<bv8>
    var sectors: nat
    var fill: nat
    var crc: bv32

    ghost predicate Shaped()
      reads this
    {
      sect.Length == SECTOR && flash != sect && flash.Length % SECTOR == 0 && fill <= SECTOR
    }

    constructor (size: nat)
      requires size % SECTOR == 0
      ensures Shaped() && flash.Length == size && fresh(flash) && fresh(sect)
    {
      flash, sect := new bv8[size](_ => 0), new bv8[SECTOR](_ => 0);
      sectors, fill, crc := 0, 0, START;
    }

    /** Everything taken so far is in flash or in the sector buffer, and what is erased is still erased. */
    ghost predicate Holds(got: seq<bv8>, erased: nat)
      reads this, flash, sect
    {
      && Shaped() && erased <= flash.Length && erased % SECTOR == 0
      && |got| == sectors * SECTOR + fill
      && sect[..fill] == got[sectors * SECTOR..]
      && crc == Register(got)
      && (|got| <= erased ==>
            && flash[..sectors * SECTOR] == got[..sectors * SECTOR]
            && forall i :: sectors * SECTOR <= i < erased ==> flash[i] == 0xFF)
    }

    method Erase(end: nat)
      requires end <= flash.Length
      modifies flash
      ensures forall i :: 0 <= i < end ==> flash[i] == 0xFF
    {
      for i := 0 to end
        invariant forall k :: 0 <= k < i ==> flash[k] == 0xFF
      {
        flash[i] := 0xFF;
      }
    }

    /** Flash can only be cleared bit by bit: a write leaves the conjunction of old and new. */
    method Program(off: nat, n: nat, works: bool) returns (ok: bool)
      requires Shaped() && n <= SECTOR
      modifies flash
      ensures ok == (works && off + n <= flash.Length)
      ensures ok ==> forall i :: off <= i < off + n ==> flash[i] == Burnt(old(flash[i]), sect[i - off])
      ensures forall i :: 0 <= i < flash.Length && !(ok && off <= i < off + n) ==> flash[i] == old(flash[i])
    {
      ok := works && off + n <= flash.Length;
      if ok {
        forall i | 0 <= i < n {
          flash[off + i] := Burnt(flash[off + i], sect[i]);
        }
      }
    }

    /** Programming an erased stretch with the sector buffer stores exactly the buffer. */
    method Flush(n: nat, works: bool, ghost erased: nat) returns (ok: bool)
      requires Shaped() && n <= SECTOR && erased <= flash.Length
      requires sectors * SECTOR + n <= erased ==> forall i :: sectors * SECTOR <= i < erased ==> flash[i] == 0xFF
      modifies flash
      ensures ok == (works && sectors * SECTOR + n <= flash.Length)
      ensures flash[..Min(sectors * SECTOR, flash.Length)] == old(flash[..Min(sectors * SECTOR, flash.Length)])
      ensures ok && sectors * SECTOR + n <= erased ==>
                && flash[sectors * SECTOR..sectors * SECTOR + n] == sect[..n]
                && forall i :: sectors * SECTOR + n <= i < erased ==> flash[i] == 0xFF
    {
      var off := sectors * SECTOR;
      ok := Program(off, n, works);
      if ok && off + n <= erased {
        forall i | 0 <= i < n ensures flash[off + i] == sect[i] {
          BurntFacts(0xFF, sect[i]);
        }
      }
    }

    method Mix(b: bv8, ghost got: seq<bv8>)
      requires crc == Register(got)
      modifies `crc
      ensures crc == Register(got + [b])
    {
      RegisterSnoc(got, b);
      crc := StepByte(crc, b);
    }

    method Take(b: bv8, ghost got: seq<bv8>, ghost erased: nat)
      requires Holds(got, erased) && fill < SECTOR
      modifies sect, `fill, `crc
      ensures Holds(got + [b], erased) && fill == old(fill) + 1
    {
      sect[fill] := b;
      fill := fill + 1;
      Mix(b, got);
      assert (got + [b])[sectors * SECTOR..] == got[sectors * SECTOR..] + [b];
      assert (got + [b])[..sectors * SECTOR] == got[..sectors * SECTOR];
    }

    method FlushSector(works: bool, ghost got: seq<bv8>, ghost erased: nat) returns (ok: bool)
      requires Holds(got, erased) && fill == SECTOR
      modifies flash, `sectors, `fill
      ensures ok == (works && (old(sectors) + 1) * SECTOR <= flash.Length)
      ensures Shaped() && (ok ==> Holds(got, erased) && fill == 0 && sectors == old(sectors) + 1)
    {
      ghost var off := sectors * SECTOR;
      ok := Flush(SECTOR, works, erased);
      if ok {
        sectors, fill := sectors + 1, 0;
        if |got| <= erased {
          assert flash[..off + SECTOR] == flash[..off] + flash[off..off + SECTOR];
          assert got == got[..off] + got[off..];
        }
      }
    }

    method PutByte(b: bv8, works: nat -> bool, ghost got: seq<bv8>, ghost erased: nat) returns (ok: bool)
      requires Holds(got, erased) && fill < SECTOR
      requires FullSectors(works, |got|, flash.Length)
      modifies this, flash, sect
      ensures Shaped() && (ok ==> Holds(got + [b], erased) && fill < SECTOR)
      ensures ok <==> FullSectors(works, |got| + 1, flash.Length)
    {
      OneMoreByte(works, sectors, fill, flash.Length);
      Take(b, got, erased);
      ok := true;
      if fill == SECTOR { ok := FlushSector(works(sectors), got + [b], erased); }
    }

    method PutChunk(chunk: seq<bv8>, works: nat -> bool, ghost got: seq<bv8>, ghost erased: nat) returns (ok: bool)
      requires Holds(got, erased) && fill < SECTOR
      requires FullSectors(works, |got|, flash.Length)
      modifies this, flash, sect
      ensures Shaped() && (ok ==> Holds(got + chunk, erased) && fill < SECTOR)
      ensures ok <==> FullSectors(works, |got + chunk|, flash.Length)
    {
      ok := true;
      ghost var so := got;
      for i := 0 to |chunk|
        invariant ok && so == got + chunk[..i] && Holds(so, erased) && fill < SECTOR
        invariant FullSectors(works, |so|, flash.Length)
      {
        NextByte(got, chunk, i);
        ok := PutByte(chunk[i], works, so, erased);
        so := so + [chunk[i]];
        if !ok {
          FullBelow(works, |so|, |got + chunk|, flash.Length);
          return;
        }
      }
      assert chunk[..|chunk|] == chunk;
    }

    method Pad(wlen: nat)
      requires Shaped() && fill <= wlen <= SECTOR
      modifies sect
      ensures sect[..fill] == old(sect[..fill])
    {
      for k := fill to wlen
        invariant sect[..fill] == old(sect[..fill])
      {
        sect[k] := 0xFF;
      }
    }

    /** The rest of the last sector, padded to a multiple of four. */
    method PutTail(works: bool, ghost got: seq<bv8>, ghost erased: nat) returns (ok: bool)
      requires Holds(got, erased) && 0 < fill < SECTOR
      modifies flash, sect
      ensures |got| <= erased ==> ok == works
      ensures ok && |got| <= erased ==> flash[..|got|] == got
    {
      ghost var off := sectors * SECTOR;
      var wlen := RoundUp(fill, 4);
      if off + fill <= erased { TailFits(sectors, fill, erased); }
      Pad(wlen);
      ghost var buffer := sect[..wlen];
      assert buffer[..fill] == got[off..];
      ok := Flush(wlen, works, erased);
      if ok && |got| <= erased { TailInPlace(flash[..], buffer, got, off, fill); }
    }

    /** The download loop, over a partition already erased. */
    method Fetch(total: nat, chunks: seq<seq<bv8>>, works: nat -> bool, ghost erased: nat) returns (ok: bool)
      requires Holds([], erased) && fill < SECTOR
      modifies this, flash, sect
      ensures var data := Taken(chunks, total, []);
              && Shaped() && (ok <==> FullSectors(works, |data|, flash.Length))
              && (ok ==> Holds(data, erased) && fill < SECTOR)
    {
      ghost var data := Taken(chunks, total, []);
      var r := 0;
      ghost var got: seq<bv8> := [];
      while sectors * SECTOR + fill < total && r < |chunks|
        invariant r <= |chunks| && Holds(got, erased) && fill < SECTOR
        invariant Taken(chunks[r..], total, got) == data
        invariant FullSectors(works, |got|, flash.Length)
        decreases |chunks| - r
      {
        assert chunks[r..][0] == chunks[r] && chunks[r..][1..] == chunks[r + 1..];
        var put := PutChunk(chunks[r], works, got, erased);
        got := got + chunks[r];
        r := r + 1;
        if !put {
          FullBelow(works, |got|, |data|, flash.Length);
          return false;
        }
      }
      assert got == data;
      ok := true;
    }

    /** The loop's leftovers and the verdict. */
    method Finish(total: nat, works: nat -> bool, ghost data: seq<bv8>, ghost erased: nat) returns (ok: bool)
      requires Holds(data, erased) && fill < SECTOR && total <= erased
      requires FullSectors(works, |data|, flash.Length)
      modifies flash, sect
      ensures ok <==> |data| == total && AllSectors(works, total)
      ensures ok ==> flash[..total] == data
    {
      SectorsSplit(works, sectors, fill, flash.Length);
      var tail := true;
      if fill > 0 {
        tail := PutTail(works(sectors), data, erased);
      } else {
        assert data[..|data|] == data;
      }
      ok := tail && sectors * SECTOR + fill == total;
    }

    /**
     * The whole download. It reports success exactly when the size is usable, the stream delivers that
     * many bytes, and every erase and write succeeds; the partition then starts with exactly those
     * bytes, and the reported sum is their CRC-32.
     */
    method Stage(total: int, chunks: seq<seq<bv8>>, eraseWorks: bool, works: nat -> bool)
      returns (ok: bool, size: nat, sum: bv32)
      requires Shaped()
      modifies this, flash, sect
      ensures ok <==>
          0 < total <= flash.Length && eraseWorks && |Taken(chunks, total, [])| == total && AllSectors(works, total)
      ensures ok ==>
          flash[..total] == Taken(chunks, total, []) && size == total && sum == Crc32(Taken(chunks, total, []))
    {
      ok, size, sum := false, 0, 0;
      sectors, fill, crc := 0, 0, START;
      if total <= 0 || total > flash.Length || !eraseWorks { return; }
      var erased := RoundUp(total, SECTOR);
      EraseFits(total, flash.Length);
      RoundUpSector(total);
      Erase(erased);
      AllAreFull(works, total, flash.Length);
      ok := Fetch(total, chunks, works, erased);
      if ok { ok := Finish(total, works, Taken(chunks, total, []), erased); }
      if ok { size, sum := sectors * SECTOR + fill, Final(crc); }
    }
  }

  /** Every sector a download of `total` bytes touches, the last one perhaps in part, can be written. */
  ghost predicate AllSectors(works: nat -> bool, total: int) {
    forall k: nat :: k * SECTOR < total ==> works(k)
  }

  lemma FullBelow(works: nat -> bool, m: nat, n: nat, size: nat)
    requires m <= n
    ensures FullSectors(works, n, size) ==> FullSectors(works, m, size)
  {
  }

  lemma AllAreFull(works: nat -> bool, total: nat, size: nat)
    requires total <= size
    ensures AllSectors(works, total) ==> FullSectors(works, total, size)
  {
  }

  lemma SectorsSplit(works: nat -> bool, k: nat, fill: nat, size: nat)
    requires fill < SECTOR
    ensures k * SECTOR + fill <= size ==>
              (AllSectors(works, k * SECTOR + fill)
               <==> FullSectors(works, k * SECTOR + fill, size) && (fill > 0 ==> works(k)))
  {
  }

  lemma EraseFits(total: nat, size: nat)
    requires total <= size && size % SECTOR == 0
    ensures RoundUp(total, SECTOR) <= size
  {
    RoundUpSector(total);
  }
}
