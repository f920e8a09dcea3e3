/** Whole bus transactions as the bootloader sees them (the protocol comment
    at main.c:107-131).  A write transaction is SLA+W followed by data bytes;
    a read transaction is SLA+R followed by the bytes the slave sends until
    the master answers with NACK. */
module Transactions {
  import opened Wire
  import opened BootProtocol

  /** The state after the bytes of a write transaction were offered to the
      slave, and how many of them it took. */
  datatype Fed = Fed(dev: Dev, taken: nat)

  /** Offer `bytes` one by one.  Each byte is acknowledged and handled,
      whatever `ack` the previous one left (see `Received`).  Once a byte
      has requested the application, the main loop leaves its wait and
      switches the TWI off (main.c:425-429) before the next byte, which is
      then not taken. */
  function Feed(d: Dev, bytes: seq<byte>): (r: Fed)
    requires Inv(d)
    ensures Inv(r.dev) && r.taken <= |bytes|
    ensures r.dev.flash[APP_END..] == d.flash[APP_END..]
    ensures r.taken < |bytes| ==> Handoff(r.dev)
    decreases |bytes|
  {
    if bytes == [] || Handoff(d) then Fed(d, 0)
    else
      var s := Receive(d, bytes[0]);
      var rest := Feed(s.dev, bytes[1..]);
      Fed(rest.dev, rest.taken + 1)
  }

  /** SLA+W (which restarts the counter), the frame, STOP.  The master's
      write succeeds when every byte was taken. */
  function WriteTransaction(d: Dev, frame: seq<byte>): (r: Fed)
    requires Inv(d)
    ensures Inv(r.dev) && r.taken <= |frame|
  {
    Feed(WriteStart(d), frame)
  }

  /** Offering two pieces one after the other is offering their
      concatenation. */
  lemma {:induction false} FeedAppend(d: Dev, xs: seq<byte>, ys: seq<byte>)
    requires Inv(d)
    ensures var r := Feed(d, xs);
            var s := Feed(r.dev, ys);
            Feed(d, xs + ys) == Fed(s.dev, r.taken + s.taken)
    decreases |xs|
  {
    if xs == [] {
      assert xs + ys == ys;
    } else if !Handoff(d) {
      var t := Receive(d, xs[0]);
      assert (xs + ys)[0] == xs[0];
      assert (xs + ys)[1..] == xs[1..] + ys;
      FeedAppend(t.dev, xs[1..], ys);
    }
  }

  /** The bytes sent in a read transaction, and the state after it. */
  datatype Fetched = Fetched(dev: Dev, data: seq<byte>)

  /** `n` bytes sent on status 0xB8, one for each acknowledge of the master. */
  function Fetch(d: Dev, n: nat): (r: Fetched)
    requires Inv(d)
    ensures Inv(r.dev) && |r.data| == n
    ensures r.dev.buf == d.buf && r.dev.flash == d.flash && r.dev.eeprom == d.eeprom
    ensures r.dev.cmd == d.cmd && r.dev.bootTimeout == d.bootTimeout
    decreases n
  {
    if n == 0 then Fetched(d, [])
    else
      var s := Transmit(d);
      var rest := Fetch(s.dev, n - 1);
      Fetched(rest.dev, [s.data] + rest.data)
  }

  /** SLA+R and `n` bytes: the first is sent on status 0xA8, the others on
      0xB8; the master NACKs the last one (status 0xC0, no state change). */
  function ReadTransaction(d: Dev, n: nat): (r: Fetched)
    requires Inv(d)
    ensures Inv(r.dev) && |r.data| == n
    ensures r.dev.buf == d.buf && r.dev.flash == d.flash && r.dev.eeprom == d.eeprom
    ensures r.dev.cmd == d.cmd && r.dev.bootTimeout == d.bootTimeout
  {
    if n == 0 then Fetched(d, [])
    else
      var s := ReadStart(d);
      var rest := Fetch(s.dev, n - 1);
      Fetched(rest.dev, [s.data] + rest.data)
  }

  /** A read transaction continues where the byte just sent left the
      device. */
  lemma FetchStep(d: Dev, n: nat)
    requires Inv(d) && n > 0
    ensures var s := Transmit(d);
            var r := Fetch(d, n);
            var rest := Fetch(s.dev, n - 1);
            && r.dev == rest.dev && r.data[0] == s.data
            && forall i | 1 <= i < n :: r.data[i] == rest.data[i - 1]
  {
  }

  /** Advancing a 16-bit address by one and then by `j` is advancing it by
      `j + 1`. */
  lemma Trunc16Shift(a: nat, j: nat)
    ensures Trunc16(Trunc16(a + 1) + j) == Trunc16(a + j + 1)
  {
  }

  /** A reply whose first byte is the memory at `a` and whose other bytes
      are a reply of consecutive bytes from `a + 1` (16-bit) is a reply of
      consecutive bytes from `a`. */
  lemma ConsecutiveBytes(r: seq<byte>, rest: seq<byte>, m: seq<byte>, size: nat, a: u16)
    requires 0 < size <= |m| && |r| == |rest| + 1 && r[0] == m[a % size]
    requires forall i | 1 <= i < |r| :: r[i] == rest[i - 1]
    requires forall j | 0 <= j < |rest| :: rest[j] == m[Trunc16(Trunc16(a + 1) + j) % size]
    ensures forall i | 0 <= i < |r| :: r[i] == m[Trunc16(a + i) % size]
  {
    forall i | 0 <= i < |r|
      ensures r[i] == m[Trunc16(a + i) % size]
    {
      if i > 0 {
        assert r[i] == rest[i - 1];
        Trunc16Shift(a, i - 1);
      }
    }
  }

  /** One byte of a flash or EEPROM read: it is the memory at `addr` and
      the address advances by one (16-bit), so a rest of the read that is
      consecutive bytes from there makes the whole read consecutive bytes
      from `addr`. */
  lemma MemoryStep(d: Dev, n: nat, m: seq<byte>, size: nat, next: Dev, tail: Fetched)
    requires Inv(d) && n > 0 && next == Transmit(d).dev && tail == Fetch(next, n - 1)
    requires || (d.cmd == CMD_READ_FLASH && m == d.flash && size == 0x2000)
             || (d.cmd == CMD_READ_EEPROM && m == d.eeprom && size == 0x200)
    requires forall j | 0 <= j < n - 1 :: tail.data[j] == m[Trunc16(next.addr + j) % size]
    requires tail.dev.addr == Trunc16(next.addr + (n - 1))
    ensures forall i | 0 <= i < n :: Fetch(d, n).data[i] == m[Trunc16(d.addr + i) % size]
    ensures Fetch(d, n).dev.addr == Trunc16(d.addr + n)
  {
    var s := Transmit(d);
    assert next.addr == Trunc16(d.addr + 1) && s.data == m[d.addr % size];
    FetchStep(d, n);
    Trunc16Shift(d.addr, n - 1);
    ConsecutiveBytes(Fetch(d, n).data, tail.data, m, size, d.addr);
  }

  /** A flash read sends consecutive bytes from `addr`, which wraps at 16
      bits and is decoded modulo the flash size. */
  lemma {:induction false} FetchFlash(d: Dev, n: nat)
    requires Inv(d) && d.cmd == CMD_READ_FLASH
    ensures var r := Fetch(d, n);
            && (forall i | 0 <= i < n :: r.data[i] == d.flash[Trunc16(d.addr + i) % 0x2000])
            && r.dev.addr == Trunc16(d.addr + n)
    decreases n
  {
    if n > 0 {
      var next := Transmit(d).dev;
      FetchFlash(next, n - 1);
      MemoryStep(d, n, d.flash, 0x2000, next, Fetch(next, n - 1));
    }
  }

  /** The same for the EEPROM, decoded modulo its size. */
  lemma {:induction false} FetchEeprom(d: Dev, n: nat)
    requires Inv(d) && d.cmd == CMD_READ_EEPROM
    ensures var r := Fetch(d, n);
            && (forall i | 0 <= i < n :: r.data[i] == d.eeprom[Trunc16(d.addr + i) % 0x200])
            && r.dev.addr == Trunc16(d.addr + n)
    decreases n
  {
    if n > 0 {
      var next := Transmit(d).dev;
      FetchEeprom(next, n - 1);
      MemoryStep(d, n, d.eeprom, 0x200, next, Fetch(next, n - 1));
    }
  }

  /** The first byte of a version read is byte `bcnt` of `info`. */
  lemma FetchVersionFirst(d: Dev, n: nat, i: nat)
    requires Inv(d) && d.cmd == CMD_READ_VERSION && i == 0 && i < n
    ensures Fetch(d, n).data[i] == InfoByte((d.bcnt + i) % 16)
  {
  }

  /** Byte `i` of a read is byte `i - 1` of the read that starts one
      position later, and that position has advanced cyclically by one. */
  lemma FetchVersionNext(d: Dev, n: nat, i: nat)
    requires Inv(d) && d.cmd == CMD_READ_VERSION && 0 < i < n
    ensures Fetch(d, n).data[i] == Fetch(Transmit(d).dev, n - 1).data[i - 1]
    ensures (Transmit(d).dev.bcnt + (i - 1)) % 16 == (d.bcnt + i) % 16
  {
    var s := Transmit(d);
    assert Fetch(d, n).data == [s.data] + Fetch(s.dev, n - 1).data;
    if d.bcnt + 1 < 16 {
      assert s.dev.bcnt == d.bcnt + 1;
    } else {
      assert s.dev.bcnt == 0 && d.bcnt + i == (i - 1) + 16;
    }
  }

  /** Byte `i` of a version read is byte `(bcnt + i) % 16` of `info`. */
  lemma {:induction false} FetchVersionAt(d: Dev, n: nat, i: nat)
    requires Inv(d) && d.cmd == CMD_READ_VERSION && i < n
    ensures Fetch(d, n).data[i] == InfoByte((d.bcnt + i) % 16)
    decreases i
  {
    if i > 0 {
      FetchVersionAt(Transmit(d).dev, n - 1, i - 1);
      FetchVersionNext(d, n, i);
    } else {
      FetchVersionFirst(d, n, i);
    }
  }

  /** A version read cycles through the 16 bytes of `info`. */
  lemma FetchVersion(d: Dev, n: nat)
    requires Inv(d) && d.cmd == CMD_READ_VERSION
    ensures forall i | 0 <= i < n :: Fetch(d, n).data[i] == InfoByte((d.bcnt + i) % 16)
  {
    forall i | 0 <= i < n
      ensures Fetch(d, n).data[i] == InfoByte((d.bcnt + i) % 16)
    {
      FetchVersionAt(d, n, i);
    }
  }

  /** The first byte of a chip-info read is byte `bcnt` of `chipinfo`. */
  lemma FetchChipInfoFirst(d: Dev, n: nat, i: nat)
    requires Inv(d) && d.cmd == CMD_READ_CHIPINFO && i == 0 && i < n
    ensures Fetch(d, n).data[i] == ChipInfoByte((d.bcnt + i) % 8)
  {
  }

  /** Byte `i` of a read is byte `i - 1` of the read that starts one
      position later, and that position has advanced cyclically by one. */
  lemma FetchChipInfoNext(d: Dev, n: nat, i: nat)
    requires Inv(d) && d.cmd == CMD_READ_CHIPINFO && 0 < i < n
    ensures Fetch(d, n).data[i] == Fetch(Transmit(d).dev, n - 1).data[i - 1]
    ensures (Transmit(d).dev.bcnt + (i - 1)) % 8 == (d.bcnt + i) % 8
  {
    var s := Transmit(d);
    assert Fetch(d, n).data == [s.data] + Fetch(s.dev, n - 1).data;
    if d.bcnt + 1 < 8 {
      assert s.dev.bcnt == d.bcnt + 1;
    } else {
      assert s.dev.bcnt == 0 && d.bcnt + i == (i - 1) + 8;
    }
  }

  /** Byte `i` of a chip-info read is byte `(bcnt + i) % 8` of `chipinfo`. */
  lemma {:induction false} FetchChipInfoAt(d: Dev, n: nat, i: nat)
    requires Inv(d) && d.cmd == CMD_READ_CHIPINFO && i < n
    ensures Fetch(d, n).data[i] == ChipInfoByte((d.bcnt + i) % 8)
    decreases i
  {
    if i > 0 {
      FetchChipInfoAt(Transmit(d).dev, n - 1, i - 1);
      FetchChipInfoNext(d, n, i);
    } else {
      FetchChipInfoFirst(d, n, i);
    }
  }

  /** A chip-info read cycles through the 8 bytes of `chipinfo`. */
  lemma FetchChipInfo(d: Dev, n: nat)
    requires Inv(d) && d.cmd == CMD_READ_CHIPINFO
    ensures forall i | 0 <= i < n :: Fetch(d, n).data[i] == ChipInfoByte((d.bcnt + i) % 8)
  {
    forall i | 0 <= i < n
      ensures Fetch(d, n).data[i] == ChipInfoByte((d.bcnt + i) % 8)
    {
      FetchChipInfoAt(d, n, i);
    }
  }

  /** Any other command reads as 0xFF and changes nothing. */
  lemma {:induction false} FetchOther(d: Dev, n: nat)
    requires Inv(d)
    requires d.cmd !in {CMD_READ_VERSION, CMD_READ_CHIPINFO, CMD_READ_FLASH, CMD_READ_EEPROM}
    ensures Fetch(d, n) == Fetched(d, seq(n, _ => 0xFF))
    decreases n
  {
    if n > 0 {
      FetchOther(d, n - 1);
      assert [0xFF] + seq(n - 1, _ => 0xFF) == seq(n, _ => 0xFF);
    }
  }

  /** A read transaction of `n` bytes after a command has selected memory:
      flash and EEPROM reads return the memory from `addr` on, version and
      chip-info reads return their tables from the start. */
  lemma ReadTransactionData(d: Dev, n: nat)
    requires Inv(d)
    ensures var r := ReadTransaction(d, n);
            && (d.cmd == CMD_READ_FLASH ==>
                  forall i | 0 <= i < n :: r.data[i] == d.flash[Trunc16(d.addr + i) % 0x2000])
            && (d.cmd == CMD_READ_EEPROM ==>
                  forall i | 0 <= i < n :: r.data[i] == d.eeprom[Trunc16(d.addr + i) % 0x200])
            && (d.cmd == CMD_READ_VERSION ==> forall i | 0 <= i < n :: r.data[i] == InfoByte(i % 16))
            && (d.cmd == CMD_READ_CHIPINFO ==> forall i | 0 <= i < n :: r.data[i] == ChipInfoByte(i % 8))
            && (d.cmd !in {CMD_READ_VERSION, CMD_READ_CHIPINFO, CMD_READ_FLASH, CMD_READ_EEPROM} ==>
                  r.data == seq(n, _ => 0xFF))
  {
    if n > 0 {
      var e := d.(bcnt := 0);
      if d.cmd == CMD_READ_FLASH {
        FetchFlash(e, n);
      } else if d.cmd == CMD_READ_EEPROM {
        FetchEeprom(e, n);
      } else if d.cmd == CMD_READ_VERSION {
        FetchVersion(e, n);
      } else if d.cmd == CMD_READ_CHIPINFO {
        FetchChipInfo(e, n);
      } else {
        FetchOther(e, n);
      }
      assert ReadTransaction(d, n) == Fetch(e, n);
    }
  }

  /** The flash data phase: the remaining bytes of a page fill the rest of
      the page buffer; all of them are taken, and the last one commits the
      page and restarts the counter. */
  lemma {:induction false} FeedFlashData(d: Dev, data: seq<byte>)
    requires Inv(d) && d.cmd == CMD_WRITE_FLASH && 4 <= d.bcnt
    requires |data| == SPM_PAGESIZE + 4 - d.bcnt
    ensures Feed(d, data)
            == Fed(CommitPage(d.(buf := d.buf[..d.bcnt - 4] + data)).(bcnt := 0), |data|)
    decreases |data|
  {
    var r := Receive(d, data[0]);
    if d.bcnt < SPM_PAGESIZE + 3 {
      assert r.ack && r.dev == d.(buf := d.buf[d.bcnt - 4 := data[0]], bcnt := d.bcnt + 1);
      FeedFlashData(r.dev, data[1..]);
      assert r.dev.buf[..r.dev.bcnt - 4] + data[1..] == d.buf[..d.bcnt - 4] + data;
    } else {
      assert data == [data[0]];
      assert d.buf[d.bcnt - 4 := data[0]] == d.buf[..d.bcnt - 4] + data;
    }
  }

  /** One EEPROM data byte, away from the wrap of the counter and of the
      EEPROM. */
  lemma EepromByteStep(d: Dev, b: byte)
    requires Inv(d) && d.cmd == CMD_WRITE_EEPROM && 4 <= d.bcnt < 0xFF && d.addr < EEPROM_SIZE
    ensures Receive(d, b)
            == Received(d.(eeprom := d.eeprom[d.addr := b], addr := d.addr + 1, bcnt := d.bcnt + 1), true)
  {
  }

  /** Storing `x` at `a` and then `rest` after it is storing `[x] + rest`
      at `a`. */
  lemma StoreShift(e: seq<byte>, a: nat, x: byte, rest: seq<byte>)
    requires a + 1 + |rest| <= |e|
    ensures var f := e[a := x];
            f[..a + 1] + rest + f[a + 1 + |rest|..] == e[..a] + ([x] + rest) + e[a + 1 + |rest|..]
  {
    var f := e[a := x];
    assert f[..a + 1] == e[..a] + [x];
  }

  /** The EEPROM data phase: every byte is taken and stored at consecutive
      addresses, as long as neither the counter nor the EEPROM wraps. */
  lemma {:induction false} FeedEepromData(d: Dev, data: seq<byte>)
    requires Inv(d) && d.cmd == CMD_WRITE_EEPROM && 4 <= d.bcnt
    requires d.bcnt + |data| < 0x100 && d.addr + |data| <= EEPROM_SIZE
    ensures Feed(d, data)
            == Fed(d.(eeprom := d.eeprom[..d.addr] + data + d.eeprom[d.addr + |data|..],
                      addr := d.addr + |data|, bcnt := d.bcnt + |data|), |data|)
    decreases |data|
  {
    if data != [] {
      var x, rest := data[0], data[1..];
      EepromByteStep(d, x);
      var e := d.(eeprom := d.eeprom[d.addr := x], addr := d.addr + 1, bcnt := d.bcnt + 1);
      FeedEepromData(e, rest);
      var r := Feed(e, rest);
      assert Feed(d, data) == Fed(r.dev, r.taken + 1);
      StoreShift(d.eeprom, d.addr, x, rest);
      assert [x] + rest == data;
      assert e.eeprom[..e.addr] + rest + e.eeprom[e.addr + |rest|..]
             == d.eeprom[..d.addr] + data + d.eeprom[d.addr + |data|..];
    } else {
      assert d.eeprom[..d.addr] + data + d.eeprom[d.addr + |data|..] == d.eeprom;
    }
  }
}
