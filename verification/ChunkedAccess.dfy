/**
 * Memory access of the debug server through the PCIe window on RP1's shared
 * memory: transfers are cut in chunks, and every chunk is checked against the
 * window (rp1_debug_stub.rs:423-434, 535-553, 1054-1076).
 */
module ChunkedAccess {
  import opened Prelude
  import opened LittleEndian

  const SRAM_BASE: nat := 0x2000_0000
  const SRAM_SIZE: nat := 0x1_0000
  const CHUNK: nat := 64

  // Where an RP1 address lies in the window, if the whole range is inside.
  function Translate(window: nat, addr: u32, len: nat): Option<nat> {
    if addr < SRAM_BASE then None
    else if addr - SRAM_BASE + len > window then None
    else Some(addr - SRAM_BASE)
  }

  // Some bytes of memory replaced by others.
  function Overlay(sram: Bytes, at: nat, data: Bytes): (r: Bytes)
    requires at + |data| <= |sram|
    ensures |r| == |sram|
  {
    sram[..at] + data + sram[at + |data|..]
  }

  // How much of a transfer goes through before a chunk leaves the window: all
  // of it, or whole chunks only.
  function Passes(window: nat, addr: u32, len: nat): (n: nat)
    requires window <= SRAM_SIZE
    ensures n <= len && Reached(window, addr, n)
  {
    if len == 0 || addr < SRAM_BASE || addr - SRAM_BASE > window then 0
    else if addr - SRAM_BASE + len <= window then len
    else (window - (addr - SRAM_BASE)) / CHUNK * CHUNK
  }

  // A transfer goes through exactly when its range lies in the window; an
  // empty one always does, whatever its address.
  lemma PassesWholeIff(window: nat, addr: u32, len: nat)
    requires window <= SRAM_SIZE
    ensures Passes(window, addr, len) == len <==> len == 0 || Translate(window, addr, len).Some?
  { }

  // The same in numbers: the window lies at 0x2000_0000.
  lemma TranslateInNumbers(window: nat, addr: u32, len: nat)
    ensures Translate(window, addr, len)
         == if 0x2000_0000 <= addr && addr + len <= 0x2000_0000 + window then Some(addr - 0x2000_0000) else None
  { }

  // A transfer that leaves the window stops with the last chunk of 64 bytes that still fits.
  lemma WholeChunksPass(window: nat, addr: u32, len: nat)
    requires window <= SRAM_SIZE && Passes(window, addr, len) != len
    ensures var n := Passes(window, addr, len);
            && n % 64 == 0
            && (n == 0 <==> addr < 0x2000_0000 || addr - 0x2000_0000 + 64 > window)
            && (n > 0 ==> addr - 0x2000_0000 + n <= window < addr - 0x2000_0000 + n + 64)
  { }

  // Addresses inside the window do not wrap.
  lemma NoWrap(window: nat, addr: u32, off: nat)
    requires Reached(window, addr, off)
    ensures (addr + off) % TWO_32 == addr + off < TWO_32
  { }

  // The first chunk to leave the window marks how much goes through.
  lemma StopsHere(window: nat, addr: u32, len: nat, off: nat, n: nat)
    requires window <= SRAM_SIZE
    requires off < len && off % CHUNK == 0 && n == (if len - off < CHUNK then len - off else CHUNK)
    requires Reached(window, addr, off)
    requires addr + off < TWO_32 && Translate(window, addr + off, n).None?
    ensures off == Passes(window, addr, len) && Translate(window, addr, len).None?
  { }

  lemma Filled(was: Bytes, now: Bytes, off: nat, chunk: Bytes)
    requires off + |chunk| <= |was| == |now|
    requires forall k :: 0 <= k < |was| ==> now[k] == if off <= k < off + |chunk| then chunk[k - off] else was[k]
    ensures now[..off + |chunk|] == was[..off] + chunk
  { }

  class SramTransport {
    const sram: array<byte>

    constructor (sram: array<byte>)
      ensures this.sram == sram
    {
      this.sram := sram;
    }

    // Never more than 64 KiB of it.
    function Window(): (n: nat)
      ensures n <= sram.Length && n <= 0x1_0000 && (n == sram.Length || n == 0x1_0000)
    {
      if sram.Length < SRAM_SIZE then sram.Length else SRAM_SIZE
    }

    method ReadChunk(addr: u32, len: nat) returns (r: Option<Bytes>)
      ensures match Translate(Window(), addr, len)
              case None => r == None
              case Some(at) => r == Some(sram[at..at + len])
    {
      var at := Translate(Window(), addr, len);
      if at.None? {
        return None;
      }
      return Some(sram[at.value..at.value + len]);
    }

    method WriteChunk(addr: u32, data: Bytes) returns (ok: bool)
      modifies sram
      ensures ok <==> Translate(Window(), addr, |data|).Some?
      ensures ok ==> sram[..] == Overlay(old(sram[..]), addr - SRAM_BASE, data)
      ensures !ok ==> sram[..] == old(sram[..])
    {
      var at := Translate(Window(), addr, |data|);
      if at.None? {
        return false;
      }
      forall k | 0 <= k < |data| {
        sram[at.value + k] := data[k];
      }
      assert sram[..] == Overlay(old(sram[..]), at.value, data);
      return true;
    }

    method Fill(buf: array<byte>, off: nat, chunk: Bytes)
      requires off + |chunk| <= buf.Length
      modifies buf
      ensures buf[..off + |chunk|] == old(buf[..off]) + chunk
    {
      ghost var was := buf[..];
      forall k | 0 <= k < |chunk| {
        buf[off + k] := chunk[k];
      }
      Filled(was, buf[..], off, chunk);
      assert was[..off] == old(buf[..off]);
    }

    // The bytes at the address, or nothing.
    method ReadMem32(addr: u32, buf: array<byte>) returns (ok: bool)
      requires buf != sram
      modifies buf
      ensures ok <==> buf.Length == 0 || Translate(Window(), addr, buf.Length).Some?
      ensures ok && buf.Length > 0 ==> buf[..] == sram[addr - SRAM_BASE..addr - SRAM_BASE + buf.Length]
    {
      hide Translate, Reached, Gathered;
      var off := 0;
      ghost var window, len := Window(), buf.Length;
      ghost var content := sram[..];
      NothingGathered(content, window, addr);
      while off < buf.Length
        invariant off <= buf.Length
        invariant off < buf.Length ==> off % CHUNK == 0
        invariant sram[..] == content
        invariant Reached(window, addr, off)
        invariant buf[..off] == Gathered(content, window, addr, off)
      {
        var n := if buf.Length - off < CHUNK then buf.Length - off else CHUNK;
        NoWrap(window, addr, off);
        var chunk := ReadChunk((addr + off) % TWO_32, n);
        if chunk.None? {
          StopsHere(window, addr, len, off, n);
          return false;
        }
        GoesOn(window, addr, off, n);
        assert chunk.value == content[addr - SRAM_BASE + off..addr - SRAM_BASE + off + n];
        Fill(buf, off, chunk.value);
        GatheredGrows(content, window, addr, off, n);
        off := off + n;
      }
      assert buf[..off] == buf[..];
      WholeReached(window, addr, len);
      WholeGathered(content, window, addr, len);
      return true;
    }

    // On success the data is in place; a failure leaves whole chunks behind,
    // as many as fit the window, and nothing else changed.
    method WriteMem32(addr: u32, data: Bytes) returns (ok: bool)
      modifies sram
      ensures ok <==> |data| == 0 || Translate(Window(), addr, |data|).Some?
      ensures sram[..] == Written(old(sram[..]), Window(), addr, data, Passes(Window(), addr, |data|))
    {
      hide Written, Translate, Passes, Reached, Overlay;
      var off := 0;
      ghost var window := Window();
      ghost var start := sram[..];
      NothingWritten(start, window, addr, data);
      while off < |data|
        invariant off <= |data|
        invariant off < |data| ==> off % CHUNK == 0
        invariant Reached(window, addr, off)
        invariant sram[..] == Written(start, window, addr, data, off)
      {
        var n := if |data| - off < CHUNK then |data| - off else CHUNK;
        NoWrap(window, addr, off);
        ghost var was := sram[..];
        ok := WriteChunk((addr + off) % TWO_32, data[off..off + n]);
        if !ok {
          StopsHere(window, addr, |data|, off, n);
          return false;
        }
        GoesOn(window, addr, off, n);
        WrittenGrows(start, was, sram[..], window, addr, data, off, n);
        off := off + n;
      }
      PassesWholeIff(window, addr, |data|);
      WholeReached(window, addr, |data|);
      return true;
    }
  }

  // A transfer that got this far lies in the window so far.
  predicate Reached(window: nat, addr: u32, off: nat) {
    off > 0 ==> addr >= SRAM_BASE && addr - SRAM_BASE + off <= window && window <= SRAM_SIZE
  }

  lemma GoesOn(window: nat, addr: u32, off: nat, n: nat)
    requires n > 0 && window <= SRAM_SIZE && addr + off < TWO_32 && Reached(window, addr, off)
    requires Translate(window, addr + off, n).Some?
    ensures Reached(window, addr, off + n) && addr >= SRAM_BASE
    ensures Translate(window, addr + off, n) == Some(addr - SRAM_BASE + off)
  {
  }

  // The first `n` bytes of a transfer in the other direction.
  function Gathered(content: Bytes, window: nat, addr: u32, n: nat): Bytes
    requires window <= |content| && Reached(window, addr, n)
  {
    if n == 0 then [] else content[addr - SRAM_BASE..addr - SRAM_BASE + n]
  }

  lemma NothingGathered(content: Bytes, window: nat, addr: u32)
    requires window <= |content|
    ensures Reached(window, addr, 0) && Gathered(content, window, addr, 0) == []
  { }

  lemma WholeGathered(content: Bytes, window: nat, addr: u32, len: nat)
    requires window <= |content| && Reached(window, addr, len)
    ensures len > 0 ==> addr >= SRAM_BASE && addr - SRAM_BASE + len <= |content|
    ensures len > 0 ==> Gathered(content, window, addr, len) == content[addr - SRAM_BASE..addr - SRAM_BASE + len]
  { }

  lemma GatheredGrows(content: Bytes, window: nat, addr: u32, off: nat, n: nat)
    requires n > 0 && window <= |content| && Reached(window, addr, off) && Reached(window, addr, off + n)
    ensures Gathered(content, window, addr, off + n)
         == Gathered(content, window, addr, off) + content[addr - SRAM_BASE + off..addr - SRAM_BASE + off + n]
  { }

  lemma WholeReached(window: nat, addr: u32, len: nat)
    requires Reached(window, addr, len)
    ensures len == 0 || Translate(window, addr, len).Some?
  { }

  // Memory once the first `n` bytes of a transfer have gone through.
  function Written(start: Bytes, window: nat, addr: u32, data: Bytes, n: nat): Bytes
    requires n <= |data| && window <= |start| && Reached(window, addr, n)
  {
    if n == 0 then start else Overlay(start, addr - SRAM_BASE, data[..n])
  }

  lemma NothingWritten(start: Bytes, window: nat, addr: u32, data: Bytes)
    requires window <= |start|
    ensures Reached(window, addr, 0) && Written(start, window, addr, data, 0) == start
  { }

  lemma WrittenGrows(start: Bytes, was: Bytes, now: Bytes, window: nat, addr: u32, data: Bytes, off: nat, n: nat)
    requires n > 0 && off + n <= |data| && window <= |start| == |was| && Reached(window, addr, off) && Reached(window, addr, off + n)
    requires was == Written(start, window, addr, data, off)
    requires now == Overlay(was, addr - SRAM_BASE + off, data[off..off + n])
    ensures now == Written(start, window, addr, data, off + n)
  { }

  // What was written is read back, and no other byte moved.
  lemma WrittenIsRead(sram: Bytes, at: nat, data: Bytes, k: nat)
    requires at + |data| <= |sram| && k < |sram|
    ensures Overlay(sram, at, data)[at..at + |data|] == data
    ensures k < at || at + |data| <= k ==> Overlay(sram, at, data)[k] == sram[k]
  { }

  // A transfer that lies in the window reads back what it wrote.
  lemma TransferRoundTrip(start: Bytes, window: nat, addr: u32, data: Bytes)
    requires window <= |start| && window <= SRAM_SIZE && (data == [] || Translate(window, addr, |data|).Some?)
    ensures Reached(window, addr, |data|)
    ensures |Written(start, window, addr, data, |data|)| == |start|
    ensures Gathered(Written(start, window, addr, data, |data|), window, addr, |data|) == data
  {
    if data != [] {
      var at := addr - SRAM_BASE;
      assert data[..|data|] == data;
      WrittenIsRead(start, at, data, at);
    }
  }
}
