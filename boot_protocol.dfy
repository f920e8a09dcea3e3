/** The bootloader's protocol engine (main.c) as a transition system on values.

    `Dev` is the whole state the interrupt handlers touch: the command `cmd`,
    the static byte counter `bcnt`, the address register `addr`, the boot
    timeout, the page buffer `buf`, and the flash and EEPROM memories.  Every
    hardware event is a total function from one `Dev` to the next; the class
    in module BootDevice performs the same steps in place and is proved equal
    to these functions. */
module BootProtocol {
  import opened Wire

  // Target device: ATmega8 with a 512-word boot section (main.c:28-45).
  // Remainders by these sizes are written with their literal values
  // (64, 32, 0x2000, 0x200), which keeps the arithmetic linear for the
  // solver.
  const SPM_PAGESIZE: nat := 64
  const WORDS_PER_PAGE: nat := SPM_PAGESIZE / 2
  const FLASH_SIZE: nat := 0x2000
  const BOOT_SECTION_SIZE: nat := 0x400
  /** First byte of the boot section: application flash is `[0, APP_END)`. */
  const APP_END: nat := FLASH_SIZE - BOOT_SECTION_SIZE
  /** Last EEPROM address. */
  const E2END: nat := 0x1FF
  const EEPROM_SIZE: nat := E2END + 1
  /** Timer ticks (25 ms each) before the application is started. */
  const TIMEOUT: byte := 40

  const SIGNATURE: seq<byte> := [0x1E, 0x93, 0x07]

  // Internal command mappings (main.c:76-91).
  const CMD_READ_CHIPINFO: byte := 0x12
  const CMD_READ_FLASH: byte := 0x22
  const CMD_READ_EEPROM: byte := 0x32
  const CMD_BOOT_APPLICATION: byte := 0x21
  const CMD_WRITE_CHIPINFO: byte := 0x12
  const CMD_WRITE_FLASH: byte := 0x22
  const CMD_WRITE_EEPROM: byte := 0x32

  /** The version string the ATmega8 build puts in `info`. */
  const VERSION_STRING: string := "TWIBOOT m8v2.0"

  /** `info[k]`: the 16 bytes of VERSION_STRING in ASCII followed by two NUL bytes. */
  function InfoByte(k: nat): byte
    requires k < 16
  {
    match k
    case 0 => 0x54
    case 1 => 0x57
    case 2 => 0x49
    case 3 => 0x42
    case 4 => 0x4F
    case 5 => 0x4F
    case 6 => 0x54
    case 7 => 0x20
    case 8 => 0x6D
    case 9 => 0x38
    case 10 => 0x76
    case 11 => 0x32
    case 12 => 0x2E
    case 13 => 0x30
    case _ => 0x00
  }

  /** The bytes the device sends for a version read are VERSION_STRING in
      ASCII, padded with NUL to the 16 bytes of `info`. */
  lemma InfoTable()
    ensures |VERSION_STRING| == 14
    ensures forall k | 0 <= k < 16 ::
              InfoByte(k) as int == if k < |VERSION_STRING| then VERSION_STRING[k] as int else 0
  {
    forall k | 0 <= k < 16
      ensures InfoByte(k) as int == if k < |VERSION_STRING| then VERSION_STRING[k] as int else 0
    {
      assert VERSION_STRING == ['T', 'W', 'I', 'B', 'O', 'O', 'T', ' ', 'm', '8', 'v', '2', '.', '0'];
    }
  }

  /** The 8-byte chip-info block: signature, page size, then two big-endian
      16-bit fields (end of application flash, EEPROM). */
  function ChipInfoLayout(sig: seq<byte>, pagesize: byte, flashEnd: u16, eepromField: u16): (r: seq<byte>)
    requires |sig| == 3
    ensures |r| == 8 && r[..3] == sig && r[3] == pagesize
    ensures BigEndian(r[4], r[5]) == flashEnd && BigEndian(r[6], r[7]) == eepromField
  {
    SplitJoin(flashEnd);
    SplitJoin(eepromField);
    sig + [pagesize, Hi(flashEnd), Lo(flashEnd), Hi(eepromField), Lo(eepromField)]
  }

  /** `chipinfo[]` as main.c builds it (main.c:134-147): bytes 6-7 carry
      E2END, the last EEPROM address, which the host reads as the EEPROM
      size. */
  const CHIPINFO: seq<byte> := ChipInfoLayout(SIGNATURE, SPM_PAGESIZE, APP_END, E2END)

  /** `chipinfo[k]` as the device sends it, byte by byte: the signature,
      SPM_PAGESIZE, APP_END = 0x1C00 and E2END = 0x01FF (lemma ChipInfoTable
      checks these against the layout). */
  function ChipInfoByte(k: nat): byte
    requires k < 8
  {
    match k
    case 0 => 0x1E
    case 1 => 0x93
    case 2 => 0x07
    case 3 => 0x40
    case 4 => 0x1C
    case 5 => 0x00
    case 6 => 0x01
    case _ => 0xFF
  }

  /** The bytes the device sends are those of main.c's table. */
  lemma ChipInfoTable()
    ensures CHIPINFO == [0x1E, 0x93, 0x07, 0x40, 0x1C, 0x00, 0x01, 0xFF]
    ensures forall k | 0 <= k < 8 :: ChipInfoByte(k) == CHIPINFO[k]
  {
    assert Hi(APP_END) == 0x1C && Lo(APP_END) == 0x00;
    assert Hi(E2END) == 0x01 && Lo(E2END) == 0xFF;
    assert CHIPINFO == [0x1E, 0x93, 0x07, 0x40, 0x1C, 0x00, 0x01, 0xFF];
  }

  /** The device state. */
  datatype Dev = Dev(cmd: byte, bcnt: byte, addr: u16, bootTimeout: byte,
                     buf: seq<byte>, flash: seq<byte>, eeprom: seq<byte>)

  /** Sizes of the memories, and the bounds on `bcnt` that keep every table
      and buffer index of the handlers in range. */
  predicate Inv(d: Dev) {
    && |d.buf| == SPM_PAGESIZE
    && |d.flash| == FLASH_SIZE
    && |d.eeprom| == EEPROM_SIZE
    && (d.cmd == CMD_WRITE_FLASH ==> d.bcnt <= SPM_PAGESIZE + 3)
    && (d.cmd == CMD_READ_VERSION ==> d.bcnt < 16)
    && (d.cmd == CMD_READ_CHIPINFO ==> d.bcnt < 8)
  }

  /** State after reset: static variables are zero except `boot_timeout` and `cmd`. */
  function PowerOn(flash: seq<byte>, eeprom: seq<byte>): (d: Dev)
    requires |flash| == FLASH_SIZE && |eeprom| == EEPROM_SIZE
    ensures Inv(d) && d.cmd == CMD_WAIT && d.bootTimeout == TIMEOUT
    ensures d.flash == flash && d.eeprom == eeprom
  {
    Dev(CMD_WAIT, 0, 0, TIMEOUT, seq(SPM_PAGESIZE, _ => 0), flash, eeprom)
  }

  /** The main loop's exit condition, `cmd == CMD_BOOT_APPLICATION`. */
  predicate Handoff(d: Dev) { d.cmd == CMD_BOOT_APPLICATION }

  // ---------------------------------------------------------------------
  // Flash page programming (write_flash_page)

  /** Start of the flash page that holds byte address `a`. */
  function PageBase(a: nat): nat { a - a % 64 }

  /** How many words the fill loop has written before it reaches byte `j` of
      the page, when it starts at byte address `pagestart`: the hardware
      places the word filled at address `x` in slot `(x % 64) / 2`. */
  function FillStep(pagestart: nat, j: nat): nat
  {
    (j / 2 + WORDS_PER_PAGE - (pagestart % 64) / 2) % 32
  }

  /** Flash after erasing and programming the page containing `pagestart`
      with the words of `buf`, filled from `pagestart` upwards. */
  function PageWritten(flash: seq<byte>, buf: seq<byte>, pagestart: nat): (r: seq<byte>)
    requires |flash| == FLASH_SIZE && |buf| == SPM_PAGESIZE && pagestart < APP_END
    ensures |r| == FLASH_SIZE
    ensures PageBase(pagestart) + SPM_PAGESIZE <= APP_END
    ensures forall i | 0 <= i < FLASH_SIZE && !(PageBase(pagestart) <= i < PageBase(pagestart) + SPM_PAGESIZE) ::
              r[i] == flash[i]
    ensures r[APP_END..] == flash[APP_END..]
  {
    var base := PageBase(pagestart);
    seq(FLASH_SIZE, i requires 0 <= i < FLASH_SIZE =>
      if base <= i < base + SPM_PAGESIZE then buf[2 * FillStep(pagestart, i - base) + (i - base) % 2]
      else flash[i])
  }

  /** A page-aligned start programs `buf` byte for byte, low byte of each
      word first, at `[pagestart, pagestart + SPM_PAGESIZE)`. */
  lemma AlignedPageWrite(flash: seq<byte>, buf: seq<byte>, pagestart: nat)
    requires |flash| == FLASH_SIZE && |buf| == SPM_PAGESIZE && pagestart < APP_END
    requires pagestart % 64 == 0
    ensures var r := PageWritten(flash, buf, pagestart);
            && r[pagestart..pagestart + SPM_PAGESIZE] == buf
            && r[..pagestart] == flash[..pagestart]
            && r[pagestart + SPM_PAGESIZE..] == flash[pagestart + SPM_PAGESIZE..]
  {
    var r := PageWritten(flash, buf, pagestart);
    assert PageBase(pagestart) == pagestart;
    forall j | 0 <= j < SPM_PAGESIZE
      ensures r[pagestart + j] == buf[j]
    {
      assert FillStep(pagestart, j) == j / 2;
    }
  }

  /** write_flash_page: refuses any page at or above APP_END; otherwise
      programs the page and leaves `addr` one page further. */
  function CommitPage(d: Dev): (r: Dev)
    requires |d.buf| == SPM_PAGESIZE && |d.flash| == FLASH_SIZE
    ensures r == d.(flash := r.flash, addr := r.addr)
    ensures |r.flash| == FLASH_SIZE && r.flash[APP_END..] == d.flash[APP_END..]
    ensures d.addr >= APP_END ==> r == d
  {
    if d.addr >= APP_END then d
    else d.(flash := PageWritten(d.flash, d.buf, d.addr), addr := Trunc16(d.addr + SPM_PAGESIZE))
  }

  // ---------------------------------------------------------------------
  // EEPROM access (read_eeprom_byte / write_eeprom_byte).  The EEPROM
  // address register decodes the low 9 bits of `addr`.

  function StoreEeprom(d: Dev, val: byte): Dev
    requires |d.eeprom| == EEPROM_SIZE
  {
    d.(eeprom := d.eeprom[d.addr % 0x200 := val], addr := Trunc16(d.addr + 1))
  }

  /** A byte sent to the bus master, and the state after sending it. */
  datatype Sent = Sent(dev: Dev, data: byte)

  function LoadEeprom(d: Dev): Sent
    requires |d.eeprom| == EEPROM_SIZE
  {
    Sent(d.(addr := Trunc16(d.addr + 1)), d.eeprom[d.addr % 0x200])
  }

  // ---------------------------------------------------------------------
  // TWI events

  /** The state after a byte received from the bus master, and the
      handler's local `ack`.  The handler clears it to refuse the next byte,
      but ORs it into TWCR (main.c:314), which cannot clear the TWEA bit
      main.c:422 set: the next byte is acknowledged all the same, and the
      only effect of a cleared `ack` is the restart of `bcnt`. */
  datatype Received = Received(dev: Dev, ack: bool)

  /** The byte-position switch of the "data received" case, before the
      counter restart at its end. */
  function Dispatch(d: Dev, data: byte): (r: Received)
    requires Inv(d)
    ensures |r.dev.buf| == SPM_PAGESIZE && |r.dev.flash| == FLASH_SIZE && |r.dev.eeprom| == EEPROM_SIZE
    ensures r.dev.flash[APP_END..] == d.flash[APP_END..]
  {
    if d.bcnt == 0 then
      if data == CMD_SWITCH_APPLICATION || data == CMD_WRITE_MEMORY then
        Received(d.(bcnt := 1, bootTimeout := 0, cmd := data), true)
      else if data == CMD_WAIT then
        Received(d.(bootTimeout := 0, cmd := data), true)
      else
        Received(d.(cmd := CMD_BOOT_APPLICATION), false)
    else if d.bcnt == 1 then
      if d.cmd == CMD_SWITCH_APPLICATION then
        Received(d.(cmd := if data == BOOTTYPE_APPLICATION then CMD_BOOT_APPLICATION else d.cmd), false)
      else if d.cmd == CMD_WRITE_MEMORY then
        if data == MEMTYPE_CHIPINFO then Received(d.(bcnt := 2, cmd := CMD_WRITE_CHIPINFO), true)
        else if data == MEMTYPE_FLASH then Received(d.(bcnt := 2, cmd := CMD_WRITE_FLASH), true)
        else if data == MEMTYPE_EEPROM then Received(d.(bcnt := 2, cmd := CMD_WRITE_EEPROM), true)
        else Received(d.(bcnt := 2), false)
      else
        Received(d, false)
    else if d.bcnt <= 3 then
      Received(d.(addr := BigEndian(Lo(d.addr), data), bcnt := d.bcnt + 1), true)
    else if d.cmd == CMD_WRITE_FLASH then
      var filled := d.(buf := d.buf[d.bcnt - 4 := data]);
      if d.bcnt < SPM_PAGESIZE + 3 then Received(filled.(bcnt := d.bcnt + 1), true)
      else Received(CommitPage(filled), false)
    else if d.cmd == CMD_WRITE_EEPROM then
      Received(StoreEeprom(d, data).(bcnt := (d.bcnt + 1) % 0x100), true)
    else
      Received(d, false)
  }

  /** Status 0x80: a data byte after SLA+W.  Whenever the handler clears
      `ack`, the byte counter restarts at 0. */
  function Receive(d: Dev, data: byte): (r: Received)
    requires Inv(d)
    ensures Inv(r.dev)
    ensures r.dev.flash[APP_END..] == d.flash[APP_END..]
    ensures !r.ack ==> r.dev.bcnt == 0
  {
    var s := Dispatch(d, data);
    if s.ack then s else Received(s.dev.(bcnt := 0), false)
  }

  /** Status 0xB8: the next byte sent after SLA+R. */
  function Transmit(d: Dev): (r: Sent)
    requires Inv(d)
    ensures Inv(r.dev)
    ensures r.dev.buf == d.buf && r.dev.flash == d.flash && r.dev.eeprom == d.eeprom
    ensures r.dev.cmd == d.cmd && r.dev.bootTimeout == d.bootTimeout
  {
    if d.cmd == CMD_READ_VERSION then
      Sent(d.(bcnt := (d.bcnt + 1) % 16), InfoByte(d.bcnt))
    else if d.cmd == CMD_READ_CHIPINFO then
      Sent(d.(bcnt := (d.bcnt + 1) % 8), ChipInfoByte(d.bcnt))
    else if d.cmd == CMD_READ_FLASH then
      Sent(d.(addr := Trunc16(d.addr + 1)), d.flash[d.addr % 0x2000])
    else if d.cmd == CMD_READ_EEPROM then
      LoadEeprom(d)
    else
      Sent(d, 0xFF)
  }

  /** Status 0x60: SLA+W starts a write transaction at byte position 0. */
  function WriteStart(d: Dev): (r: Dev)
    requires Inv(d)
    ensures Inv(r)
  {
    d.(bcnt := 0)
  }

  /** Status 0xA8: SLA+R restarts the counter and sends the first byte. */
  function ReadStart(d: Dev): (r: Sent)
    requires Inv(d)
    ensures Inv(r.dev)
  {
    Transmit(d.(bcnt := 0))
  }

  /** Timer 0 overflow: counts the boot timeout down and triggers the
      application boot when it reaches its last tick. */
  function Tick(d: Dev): (r: Dev)
    requires Inv(d)
    ensures Inv(r)
  {
    if d.bootTimeout > 1 then d.(bootTimeout := d.bootTimeout - 1)
    else if d.bootTimeout == 1 then d.(cmd := CMD_BOOT_APPLICATION)
    else d
  }

  /** The interrupts the bootloader reacts to.  `Stop` stands for both STOP /
      repeated START (0xA0) and "data sent, NACK returned" (0xC0). */
  datatype Event = SlaWrite | DataIn(data: byte) | SlaRead | DataOut | Stop | TimerTick

  function Step(d: Dev, e: Event): (r: Dev)
    requires Inv(d)
    ensures Inv(r)
    ensures r.flash[APP_END..] == d.flash[APP_END..]
  {
    match e
    case SlaWrite => WriteStart(d)
    case DataIn(b) => Receive(d, b).dev
    case SlaRead => ReadStart(d).dev
    case DataOut => Transmit(d).dev
    case Stop => d
    case TimerTick => Tick(d)
  }

  /** The state after a sequence of events handled one at a time.  No event
      ever changes the boot section `[APP_END, FLASH_SIZE)`: the bootloader
      cannot overwrite itself. */
  function Run(d: Dev, es: seq<Event>): (r: Dev)
    requires Inv(d)
    ensures Inv(r)
    ensures r.flash[APP_END..] == d.flash[APP_END..]
    decreases |es|
  {
    if es == [] then d else Step(Run(d, es[..|es| - 1]), es[|es| - 1])
  }

  function Ticks(n: nat): (r: seq<Event>)
    ensures |r| == n && forall i | 0 <= i < n :: r[i] == TimerTick
  {
    seq(n, _ => TimerTick)
  }
}
