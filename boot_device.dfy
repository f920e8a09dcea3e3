/** The bootloader's interrupt handlers (main.c:157-382) acting in place on
    one `Device`: the ISRs' global and static variables become its fields,
    the page buffer, flash and EEPROM become arrays.  Each handler is proved
    to take the device from `Model()` to the state the matching function of
    BootProtocol computes. */
module BootDevice {
  import opened Wire
  import opened BootProtocol

  /** The word filled when `p` bytes of the page buffer have been consumed
      lands in slot `s`; exactly the page bytes `2s` and `2s + 1` have
      `FillStep == p / 2`. */
  lemma FillSlot(pagestart: nat, p: nat)
    requires pagestart < APP_END && p % 2 == 0 && p < SPM_PAGESIZE
    ensures var s := (Trunc16(pagestart + p) % 64) / 2;
            && s < WORDS_PER_PAGE
            && forall j | 0 <= j < SPM_PAGESIZE :: (FillStep(pagestart, j) == p / 2 <==> j / 2 == s)
  {
    var w := (pagestart % 64) / 2;
    SlotOfFill(pagestart, p);
    forall j | 0 <= j < SPM_PAGESIZE
      ensures FillStep(pagestart, j) == p / 2 <==> j / 2 == (w + p / 2) % 32
    {
      WordDistance(j / 2, w, p / 2);
    }
  }

  /** The slot of the fill at `pagestart + p` is `p / 2` words after the
      slot of `pagestart`, modulo the page. */
  lemma SlotOfFill(pagestart: nat, p: nat)
    requires pagestart < APP_END && p % 2 == 0 && p < SPM_PAGESIZE
    ensures (Trunc16(pagestart + p) % 64) / 2
            == ((pagestart % 64) / 2 + p / 2) % 32
  {
    var x := pagestart + p;
    assert Trunc16(x) == x;
    var q, o := pagestart / 64, pagestart % 64;
    var w, r, k := o / 2, o % 2, p / 2;
    assert pagestart == 64 * q + o && o == 2 * w + r && p == 2 * k;
    assert WORDS_PER_PAGE == 32 && w < 32 && k < 32;
    if o + p < SPM_PAGESIZE {
      ModUnique(x, 64, q, o + p);
      HalfUnique(o + p, w + k, r);
      ModUnique(w + k, 32, 0, w + k);
    } else {
      ModUnique(x, 64, q + 1, o + p - 64);
      HalfUnique(o + p - 64, w + k - 32, r);
      ModUnique(w + k, 32, 1, w + k - 32);
    }
  }

  /** Word `h` is `k` words after word `w` around the page exactly when
      `h` is the slot `(w + k) % 32`. */
  lemma WordDistance(h: nat, w: nat, k: nat)
    requires h < WORDS_PER_PAGE && w < WORDS_PER_PAGE && k < WORDS_PER_PAGE
    ensures (h + WORDS_PER_PAGE - w) % 32 == k <==> h == (w + k) % 32
  {
    assert WORDS_PER_PAGE == 32;
    if h >= w {
      assert (h + 32 - w) % 32 == h - w;
    } else {
      assert (h + 32 - w) % 32 == h + 32 - w;
    }
    if w + k < 32 {
      assert (w + k) % 32 == w + k;
    } else {
      assert (w + k) % 32 == w + k - 32;
    }
  }

  /** The temporary page buffer `page` holds, at every byte whose word the
      fill loop has reached after consuming `p` bytes of `buf`, the byte of
      `buf` that PageWritten puts there. */
  ghost predicate TempFilled(page: seq<byte>, buf: seq<byte>, pagestart: nat, p: nat)
  {
    && |page| == SPM_PAGESIZE && |buf| == SPM_PAGESIZE
    && forall j | 0 <= j < SPM_PAGESIZE && 2 * FillStep(pagestart, j) < p ::
         page[j] == buf[2 * FillStep(pagestart, j) + j % 2]
  }

  /** Filling the word of buffer bytes `p` and `p + 1` at the slot of
      address `pagestart + p` extends the filled part by one word. */
  lemma FillPreserves(page: seq<byte>, buf: seq<byte>, pagestart: nat, p: nat)
    requires pagestart < APP_END && p % 2 == 0 && p < SPM_PAGESIZE
    requires TempFilled(page, buf, pagestart, p)
    ensures var s := (Trunc16(pagestart + p) % 64) / 2;
            && s < WORDS_PER_PAGE
            && TempFilled(page[2 * s := buf[p]][2 * s + 1 := buf[p + 1]], buf, pagestart, p + 2)
  {
    var s := (Trunc16(pagestart + p) % 64) / 2;
    FillSlot(pagestart, p);
    var g := page[2 * s := buf[p]][2 * s + 1 := buf[p + 1]];
    forall j | 0 <= j < SPM_PAGESIZE && 2 * FillStep(pagestart, j) < p + 2
      ensures g[j] == buf[2 * FillStep(pagestart, j) + j % 2]
    {
      if j / 2 == s {
        assert FillStep(pagestart, j) == p / 2;
        assert j == 2 * s + j % 2;
      } else {
        assert FillStep(pagestart, j) != p / 2;
      }
    }
  }

  /** Once all of `buf` is consumed, writing the temporary page to the page
      of `pagestart` gives the flash PageWritten describes. */
  lemma FillComplete(flash: seq<byte>, page: seq<byte>, buf: seq<byte>, pagestart: nat)
    requires |flash| == FLASH_SIZE && pagestart < APP_END
    requires TempFilled(page, buf, pagestart, SPM_PAGESIZE)
    ensures var base := PageBase(pagestart);
            && base + SPM_PAGESIZE <= APP_END
            && flash[..base] + page + flash[base + SPM_PAGESIZE..] == PageWritten(flash, buf, pagestart)
  {
    var r := PageWritten(flash, buf, pagestart);
    var base := PageBase(pagestart);
    var f := flash[..base] + page + flash[base + SPM_PAGESIZE..];
    forall i | 0 <= i < FLASH_SIZE
      ensures f[i] == r[i]
    {
      if base <= i < base + SPM_PAGESIZE {
        var j := i - base;
        assert f[i] == page[j];
        assert 2 * FillStep(pagestart, j) < SPM_PAGESIZE;
      }
    }
  }

  /** One more event handled is one more step of the run. */
  lemma RunSnoc(d: Dev, events: seq<Event>, n: nat)
    requires Inv(d) && n < |events|
    ensures Run(d, events[..n + 1]) == Step(Run(d, events[..n]), events[n])
  {
    assert events[..n + 1][..n] == events[..n];
  }

  class Device {
    var cmd: byte
    var bcnt: byte
    var addr: u16
    var bootTimeout: byte
    const buf: array<byte>
    const flash: array<byte>
    const eeprom: array<byte>
    /** The self-programming unit's temporary page buffer, which
        boot_page_fill writes and boot_page_write copies into flash; it is
        not part of the bootloader's own state. */
    const tempPage: array<byte>

    ghost function Model(): Dev
      reads this, buf, flash, eeprom
    {
      Dev(cmd, bcnt, addr, bootTimeout, buf[..], flash[..], eeprom[..])
    }

    ghost predicate Valid()
      reads this, buf, flash, eeprom
    {
      && buf != flash && buf != eeprom && flash != eeprom
      && tempPage != buf && tempPage != flash && tempPage != eeprom
      && tempPage.Length == SPM_PAGESIZE && Inv(Model())
    }

    /** Reset: the bootloader starts with `cmd = CMD_WAIT` and the full timeout. */
    constructor (flashImage: seq<byte>, eepromImage: seq<byte>)
      requires |flashImage| == FLASH_SIZE && |eepromImage| == EEPROM_SIZE
      ensures Valid() && fresh(buf) && fresh(flash) && fresh(eeprom) && fresh(tempPage)
      ensures Model() == PowerOn(flashImage, eepromImage)
    {
      cmd, bcnt, addr, bootTimeout := CMD_WAIT, 0, 0, TIMEOUT;
      buf := new byte[SPM_PAGESIZE](_ => 0);
      flash := new byte[FLASH_SIZE](i requires 0 <= i < FLASH_SIZE => flashImage[i]);
      eeprom := new byte[EEPROM_SIZE](i requires 0 <= i < EEPROM_SIZE => eepromImage[i]);
      tempPage := new byte[SPM_PAGESIZE](_ => 0xFF);
      new;
      assert buf[..] == seq(SPM_PAGESIZE, _ => 0);
      assert flash[..] == flashImage;
      assert eeprom[..] == eepromImage;
    }

    /** write_flash_page: erase the page, fill the temporary page buffer
        word by word from `buf` while `addr` advances, then program the
        page.  A page at or above APP_END is refused. */
    method WriteFlashPage()
      requires Valid()
      modifies this`addr, flash, tempPage
      ensures Valid()
      ensures Model() == CommitPage(old(Model()))
    {
      var pagestart := addr;
      var size: byte := SPM_PAGESIZE;
      var p: nat := 0;

      if pagestart >= APP_END {
        return;
      }

      // boot_page_erase(pagestart): every byte of the page is programmed
      // below, so the erased contents are never observed.
      while size != 0
        invariant tempPage.Length == SPM_PAGESIZE && buf.Length == SPM_PAGESIZE
        invariant p <= SPM_PAGESIZE && size as int == SPM_PAGESIZE - p && p % 2 == 0
        invariant addr == pagestart + p && flash[..] == old(flash[..])
        invariant TempFilled(tempPage[..], buf[..], pagestart, p)
      {
        var data := BigEndian(buf[p + 1], buf[p]);
        FillPreserves(tempPage[..], buf[..], pagestart, p);
        assert Trunc16(pagestart + p) == addr;
        PageFill(addr, data);
        p := p + 2;
        addr := Trunc16(addr + 2);
        size := size - 2;
      }
      FillComplete(flash[..], tempPage[..], buf[..], pagestart);
      PageWrite(PageBase(pagestart));
      assert addr == Trunc16(pagestart + SPM_PAGESIZE);
    }

    /** boot_page_fill(address, data): the word `data` goes, low byte first,
        to slot `(address % 64) / 2` of the temporary page buffer. */
    method PageFill(address: u16, data: u16)
      requires tempPage.Length == SPM_PAGESIZE
      modifies tempPage
      ensures var s := (address % 64) / 2;
              tempPage[..] == old(tempPage[..])[2 * s := Lo(data)][2 * s + 1 := Hi(data)]
    {
      var slot := (address % 64) / 2;
      tempPage[2 * slot] := Lo(data);
      tempPage[2 * slot + 1] := Hi(data);
    }

    /** boot_page_write(base): the temporary page buffer replaces the flash
        page at `base`; the rest of flash is unchanged. */
    method PageWrite(base: nat)
      requires tempPage.Length == SPM_PAGESIZE && flash.Length == FLASH_SIZE && tempPage != flash
      requires base + SPM_PAGESIZE <= FLASH_SIZE
      modifies flash
      ensures flash[..] == old(flash[..base]) + tempPage[..] + old(flash[base + SPM_PAGESIZE..])
    {
      forall i | 0 <= i < SPM_PAGESIZE {
        flash[base + i] := tempPage[i];
      }
      assert flash[..] == old(flash[..base]) + tempPage[..] + old(flash[base + SPM_PAGESIZE..]);
    }

    /** write_eeprom_byte: store `val` at `addr` and post-increment `addr`. */
    method WriteEepromByte(val: byte)
      requires Valid()
      modifies this`addr, eeprom
      ensures Valid()
      ensures Model() == StoreEeprom(old(Model()), val)
    {
      eeprom[addr % 0x200] := val;
      addr := Trunc16(addr + 1);
    }

    /** read_eeprom_byte: the byte at `addr`, post-incrementing `addr`. */
    method ReadEepromByte() returns (val: byte)
      requires Valid()
      modifies this`addr
      ensures Valid()
      ensures Sent(Model(), val) == LoadEeprom(old(Model()))
    {
      val := eeprom[addr % 0x200];
      addr := Trunc16(addr + 1);
    }

    /** TWI status 0x60, SLA+W received. */
    method SlaWriteReceived()
      requires Valid()
      modifies this`bcnt
      ensures Valid()
      ensures Model() == WriteStart(old(Model()))
    {
      bcnt := 0;
    }

    /** TWI status 0x80, a data byte received after SLA+W; `ack` is the
        handler's local of that name (see `Received`). */
    method DataReceived(data: byte) returns (ack: bool)
      requires Valid()
      modifies this, buf, flash, eeprom, tempPage
      ensures Valid()
      ensures Received(Model(), ack) == Receive(old(Model()), data)
    {
      ack := true;
      if bcnt == 0 {
        var c := data;
        if data == CMD_SWITCH_APPLICATION || data == CMD_WRITE_MEMORY {
          bcnt := bcnt + 1;
          bootTimeout := 0;
        } else if data == CMD_WAIT {
          bootTimeout := 0;
        } else {
          c := CMD_BOOT_APPLICATION;
          ack := false;
        }
        cmd := c;
      } else if bcnt == 1 {
        if cmd == CMD_SWITCH_APPLICATION {
          if data == BOOTTYPE_APPLICATION {
            cmd := CMD_BOOT_APPLICATION;
          }
          ack := false;
        } else if cmd == CMD_WRITE_MEMORY {
          bcnt := bcnt + 1;
          if data == MEMTYPE_CHIPINFO {
            cmd := CMD_WRITE_CHIPINFO;
          } else if data == MEMTYPE_FLASH {
            cmd := CMD_WRITE_FLASH;
          } else if data == MEMTYPE_EEPROM {
            cmd := CMD_WRITE_EEPROM;
          } else {
            ack := false;
          }
        } else {
          ack := false;
        }
      } else if bcnt == 2 || bcnt == 3 {
        // addr <<= 8; addr |= data;
        addr := (addr % 0x100) * 0x100 + data;
        bcnt := bcnt + 1;
      } else {
        if cmd == CMD_WRITE_FLASH {
          buf[bcnt - 4] := data;
          if bcnt < buf.Length + 3 {
            bcnt := bcnt + 1;
          } else {
            WriteFlashPage();
            ack := false;
          }
        } else if cmd == CMD_WRITE_EEPROM {
          WriteEepromByte(data);
          bcnt := (bcnt + 1) % 0x100;
        } else {
          ack := false;
        }
      }

      if !ack {
        bcnt := 0;
      }
    }

    /** TWI status 0xB8, the master acknowledged the previous byte and
        wants the next one. */
    method DataRequested() returns (data: byte)
      requires Valid()
      modifies this`bcnt, this`addr
      ensures Valid()
      ensures Sent(Model(), data) == Transmit(old(Model()))
    {
      if cmd == CMD_READ_VERSION {
        data := InfoByte(bcnt);
        bcnt := (bcnt + 1) % 16;
      } else if cmd == CMD_READ_CHIPINFO {
        data := ChipInfoByte(bcnt);
        bcnt := (bcnt + 1) % 8;
      } else if cmd == CMD_READ_FLASH {
        data := flash[addr % 0x2000];
        addr := Trunc16(addr + 1);
      } else if cmd == CMD_READ_EEPROM {
        data := ReadEepromByte();
      } else {
        data := 0xFF;
      }
    }

    /** TWI status 0xA8, SLA+R received: restart the counter, then fall
        through to sending the first byte. */
    method SlaReadReceived() returns (data: byte)
      requires Valid()
      modifies this`bcnt, this`addr
      ensures Valid()
      ensures Sent(Model(), data) == ReadStart(old(Model()))
    {
      bcnt := 0;
      data := DataRequested();
    }

    /** TWI status 0xA0 (STOP or repeated START) and 0xC0 (data sent, NACK
        returned): only the bus is re-armed; no page is committed here. */
    method StopReceived()
      requires Valid()
      ensures Valid()
      ensures Model() == old(Model())
    {
    }

    /** Timer 0 overflow. */
    method TimerOverflow()
      requires Valid()
      modifies this`bootTimeout, this`cmd
      ensures Valid()
      ensures Model() == Tick(old(Model()))
    {
      if bootTimeout > 1 {
        bootTimeout := bootTimeout - 1;
      } else if bootTimeout == 1 {
        cmd := CMD_BOOT_APPLICATION;
      }
    }

    /** Deliver one interrupt. */
    method Handle(e: Event)
      requires Valid()
      modifies this, buf, flash, eeprom, tempPage
      ensures Valid()
      ensures Model() == Step(old(Model()), e)
    {
      match e
      case SlaWrite => SlaWriteReceived();
      case DataIn(b) => var _ := DataReceived(b);
      case SlaRead => var _ := SlaReadReceived();
      case DataOut => var _ := DataRequested();
      case Stop => StopReceived();
      case TimerTick => TimerOverflow();
    }

    /** `while (cmd != CMD_BOOT_APPLICATION);` with interrupts enabled: events
        are handled one after another until one of them requests the
        application, after which the bootloader hands over and handles
        nothing more. */
    method Serve(events: seq<Event>) returns (handled: nat)
      requires Valid()
      modifies this, buf, flash, eeprom, tempPage
      ensures Valid()
      ensures handled <= |events|
      ensures Model() == Run(old(Model()), events[..handled])
      ensures handled < |events| ==> Handoff(Model())
      ensures forall k | 0 <= k < handled :: !Handoff(Run(old(Model()), events[..k]))
    {
      ghost var d0 := Model();
      handled := 0;
      while handled < |events| && cmd != CMD_BOOT_APPLICATION
        invariant Valid() && handled <= |events| && Inv(d0)
        invariant Model() == Run(d0, events[..handled])
        invariant forall k | 0 <= k < handled :: !Handoff(Run(d0, events[..k]))
      {
        ServeNext(d0, events, handled);
        handled := handled + 1;
      }
    }

    /** One pass of the main loop's wait: the next event is handled while
        the application has not been requested. */
    method ServeNext(ghost d0: Dev, events: seq<Event>, handled: nat)
      requires Valid() && Inv(d0) && handled < |events| && cmd != CMD_BOOT_APPLICATION
      requires Model() == Run(d0, events[..handled])
      requires forall k | 0 <= k < handled :: !Handoff(Run(d0, events[..k]))
      modifies this, buf, flash, eeprom, tempPage
      ensures Valid()
      ensures Model() == Run(d0, events[..handled + 1])
      ensures forall k | 0 <= k < handled + 1 :: !Handoff(Run(d0, events[..k]))
    {
      Handle(events[handled]);
      RunSnoc(d0, events, handled);
    }
  }
}
