/** The boot timeout (main.c:149-150, 367-382) and the hand-off condition of
    the main loop (main.c:425): properties of runs made of timer ticks. */
module BootTimeout {
  import opened Wire
  import opened BootProtocol

  /** One more tick is one more step of the run. */
  lemma TicksUnfold(d: Dev, k: nat)
    requires Inv(d)
    ensures Run(d, Ticks(k + 1)) == Tick(Run(d, Ticks(k)))
  {
    assert Ticks(k + 1)[..k] == Ticks(k);
  }

  /** Each tick before the last one only decrements the timeout. */
  lemma {:induction false} TimeoutCountsDown(d: Dev, k: nat)
    requires Inv(d) && k < d.bootTimeout
    ensures Run(d, Ticks(k)) == d.(bootTimeout := d.bootTimeout - k)
  {
    if k == 0 {
      assert Ticks(0) == [];
    } else {
      TimeoutCountsDown(d, k - 1);
      TicksUnfold(d, k - 1);
    }
  }

  /** A running timeout `t` forces the hand-off on exactly the `t`-th tick. */
  lemma TimeoutExpires(d: Dev)
    requires Inv(d) && d.bootTimeout >= 1
    ensures Run(d, Ticks(d.bootTimeout)) == d.(bootTimeout := 1, cmd := CMD_BOOT_APPLICATION)
    ensures forall k | 0 <= k < d.bootTimeout :: Run(d, Ticks(k)).cmd == d.cmd
  {
    forall k | 0 <= k < d.bootTimeout
      ensures Run(d, Ticks(k)).cmd == d.cmd
    {
      TimeoutCountsDown(d, k);
    }
    TimeoutCountsDown(d, d.bootTimeout - 1);
    TicksUnfold(d, d.bootTimeout - 1);
  }

  /** A cancelled timeout (0) is never decremented and never forces the boot. */
  lemma {:induction false} CancelledTimeoutNeverBoots(d: Dev, n: nat)
    requires Inv(d) && d.bootTimeout == 0
    ensures Run(d, Ticks(n)) == d
  {
    if n == 0 {
      assert Ticks(0) == [];
    } else {
      CancelledTimeoutNeverBoots(d, n - 1);
      TicksUnfold(d, n - 1);
    }
  }

  /** Left alone after reset, the bootloader hands over to the application on
      tick TIMEOUT (40 ticks of 25 ms) and not before. */
  lemma PowerOnBootsAfterTimeout(flash: seq<byte>, eeprom: seq<byte>)
    requires |flash| == FLASH_SIZE && |eeprom| == EEPROM_SIZE
    ensures Handoff(Run(PowerOn(flash, eeprom), Ticks(TIMEOUT)))
    ensures forall k | 0 <= k < TIMEOUT :: !Handoff(Run(PowerOn(flash, eeprom), Ticks(k)))
  {
    TimeoutExpires(PowerOn(flash, eeprom));
  }

  /** The first byte of a write transaction: 0x00 cancels the timeout and
      stays at position 0; 0x01 and 0x02 cancel it and advance to position 1;
      anything else requests the application and clears `ack`. */
  lemma CommandByte(d: Dev, c: byte)
    requires Inv(d)
    ensures var r := Receive(WriteStart(d), c);
            && (c == CMD_WAIT ==> r == Received(d.(cmd := CMD_WAIT, bcnt := 0, bootTimeout := 0), true))
            && (c == CMD_SWITCH_APPLICATION || c == CMD_WRITE_MEMORY ==>
                  r == Received(d.(cmd := c, bcnt := 1, bootTimeout := 0), true))
            && (c != CMD_WAIT && c != CMD_SWITCH_APPLICATION && c != CMD_WRITE_MEMORY ==>
                  r == Received(d.(cmd := CMD_BOOT_APPLICATION, bcnt := 0), false) && Handoff(r.dev))
  {
  }

  /** Any recognised command cancels the timeout for good: however many
      ticks follow, none of them forces the hand-off. */
  lemma CommandCancelsTimeout(d: Dev, c: byte, n: nat)
    requires Inv(d) && (c == CMD_WAIT || c == CMD_SWITCH_APPLICATION || c == CMD_WRITE_MEMORY)
    ensures var e := Receive(WriteStart(d), c).dev;
            Run(e, Ticks(n)) == e && !Handoff(Run(e, Ticks(n)))
  {
    CommandByte(d, c);
    CancelledTimeoutNeverBoots(Receive(WriteStart(d), c).dev, n);
  }

  /** The second byte of CMD_SWITCH_APPLICATION: 0x80 requests the
      application, any other value leaves `cmd` as it was; either way `ack`
      is cleared and the counter restarts. */
  lemma SwitchApplicationByte(d: Dev, b: byte)
    requires Inv(d) && d.bcnt == 1 && d.cmd == CMD_SWITCH_APPLICATION
    ensures var r := Receive(d, b);
            && !r.ack && r.dev.bcnt == 0
            && (Handoff(r.dev) <==> b == BOOTTYPE_APPLICATION)
            && r.dev == d.(bcnt := 0, cmd := r.dev.cmd)
  {
  }

  /** The memory-type byte of CMD_WRITE_MEMORY maps 0, 1 and 2 to the chip-info,
      flash and EEPROM commands; any other type clears `ack`, which restarts
      the counter. */
  lemma MemoryTypeByte(d: Dev, m: byte)
    requires Inv(d) && d.bcnt == 1 && d.cmd == CMD_WRITE_MEMORY
    ensures var r := Receive(d, m);
            && (m == MEMTYPE_CHIPINFO ==> r == Received(d.(bcnt := 2, cmd := CMD_READ_CHIPINFO), true))
            && (m == MEMTYPE_FLASH ==> r == Received(d.(bcnt := 2, cmd := CMD_READ_FLASH), true))
            && (m == MEMTYPE_EEPROM ==> r == Received(d.(bcnt := 2, cmd := CMD_READ_EEPROM), true))
            && (m > MEMTYPE_EEPROM ==> r == Received(d.(bcnt := 0), false))
  {
  }

  /** Positions 2 and 3 assemble the address high byte first, whatever the
      command is. */
  lemma AddressBytes(d: Dev, hi: byte, lo: byte)
    requires Inv(d) && d.bcnt == 2
    ensures var r1 := Receive(d, hi);
            var r2 := Receive(r1.dev, lo);
            && r1.ack && r2.ack
            && r2.dev == d.(addr := BigEndian(hi, lo), bcnt := 4)
  {
  }

  /** In the flash data phase the byte lands at `buf[bcnt - 4]`, inside the
      page buffer, and `ack` is cleared exactly when that byte is the last of
      the page, which commits the page. */
  lemma FlashDataByte(d: Dev, b: byte)
    requires Inv(d) && d.cmd == CMD_WRITE_FLASH && d.bcnt >= 4
    ensures 0 <= d.bcnt - 4 < SPM_PAGESIZE
    ensures var r := Receive(d, b);
            && (r.ack <==> d.bcnt < SPM_PAGESIZE + 3)
            && r.dev.buf == d.buf[d.bcnt - 4 := b]
            && (r.ack ==> r.dev == d.(buf := r.dev.buf, bcnt := d.bcnt + 1))
            && (!r.ack ==> r.dev == CommitPage(d.(buf := r.dev.buf)).(bcnt := 0))
  {
  }

  /** In the EEPROM data phase the byte is stored at `addr`, which then
      advances. */
  lemma EepromDataByte(d: Dev, b: byte)
    requires Inv(d) && d.cmd == CMD_WRITE_EEPROM && d.bcnt >= 4
    ensures var r := Receive(d, b);
            && r.ack
            && r.dev.eeprom == d.eeprom[d.addr % 0x200 := b]
            && r.dev.addr == Trunc16(d.addr + 1)
  {
  }

  /** Writing data to chip-info, or to any command other than flash and
      EEPROM, is refused. */
  lemma OtherDataByte(d: Dev, b: byte)
    requires Inv(d) && d.bcnt >= 4 && d.cmd != CMD_WRITE_FLASH && d.cmd != CMD_WRITE_EEPROM
    ensures Receive(d, b) == Received(d.(bcnt := 0), false)
  {
  }
}
