# SAM EEFC flash driver, modelled in Dafny

This project models the Zephyr flash driver for the Atmel/Microchip SAM embedded flash controller
(EEFC). The driver keeps a small device record: the geometry read from the controller at init, and a
software lock flag. It offers read, write, erase, write protection and the page layout.

Each operation checks its arguments in a fixed order, then issues a sequence of controller commands:
- erase-all (`EA`);
- erase 16 pages (`EPA`);
- write page (`WP`);
- get and clear lock bits (`GLB`, `CLB`);
- get descriptor (`GETD`).

Erase and write stop at the first busy status or rejected command and leave earlier work in place;
write protection stops only on a busy status and ignores the acknowledgments of its commands.

The model has four modules:

- `Bits` gives the C integer semantics the driver relies on: 32-bit unsigned wrap-around of
  `off_t`/`size_t`/`u32_t` arithmetic, truncation to `u16_t`, and bitwise `&` and `|` on naturals.
  It also models `is_aligned` as the source's bitmask test, and proves the test equals divisibility
  for power-of-two alignments.
- `Controller` is the register block as the driver sees it, as class `Efc`. The ready bit of
  `EEFC_FSR`, the return values of the ROM call `soc_iap_send_flash_cmd`, and the words of `EEFC_FRR`
  are oracle functions, indexed by how many times each has been read so far. Every command written
  is appended to a ghost log of abstract `(opcode, argument)` pairs.
- `FlashSpec` states what init, erase, write and write protection do as pure functions: the return
  code, the commands in order, and the number of ready polls. The lemmas about these functions state what the driver
  promises.
- `FlashSam` holds class `Device`: the `flash_sam_dev_data` fields, the software lock, and a byte
  array standing for the flash window that reads copy from and writes copy into. Its methods work
  by mutation and loops, as the C code does. Init, erase, write and write protection are proved to
  leave the controller's log, its counters, the return code and the window exactly as the matching
  `FlashSpec` function says. Read issues no command, so it has no `FlashSpec` function: its contract
  states the bounds check and the bytes returned directly over the window.

## Model

| member | source | states |
|---|---|---|
| Bits.AlignedIffMultiple | drivers/flash/flash_sam_eefc.c:42-45 | for a power-of-two alignment, the mask test `data & (a - 1)` is zero iff `data` is a multiple of `a` |
| Bits.IsAligned | drivers/flash/flash_sam_eefc.c:42-45 | data 0 and alignment 1 always pass the mask test; an alignment of 0 makes the mask all ones (`0 - 1` in 32 bits), so only data 0 passes |
| Bits.OrTwo | drivers/flash/flash_sam_eefc.c:91 | on a multiple of 4, `\| 0x2` adds 2 |
| Bits.Trunc16Add | drivers/flash/flash_sam_eefc.c:96 | truncating the `u16_t` page counter after each step equals truncating the total once |
| FlashSpec.Erase | drivers/flash/flash_sam_eefc.c:47-102 | erase returns one of 0, -EACCES, -EINVAL, -EBUSY, -EIO; it polls at most once; it issues no command unless it returns 0 or -EIO, and at least one for -EIO |
| FlashSpec.EraseCheckOrder | drivers/flash/flash_sam_eefc.c:56-68 | locked gives -EACCES with no poll; then an offset not aligned to page_size gives -EINVAL with no poll; then a busy controller gives -EBUSY after one poll; none of these issues a command |
| FlashSpec.EraseWholeChip | drivers/flash/flash_sam_eefc.c:70-83 | start page 0 with len == flash_size issues exactly one erase-all command, whatever the erase_len alignment; the result is 0 iff the acknowledgment is 0x1, else -EIO |
| FlashSpec.EraseAllAtWrappedPage | drivers/flash/flash_sam_eefc.c:70-73 | because start_page is 16-bit, a whole-flash request at byte offset 65536 * page_size is also an erase-all |
| FlashSpec.EraseBlocks | drivers/flash/flash_sam_eefc.c:88-97 | the erase-block loop makes no ready poll, issues at most `count` erase-pages commands and returns 0 or -EIO |
| FlashSpec.EraseBlocksFacts | drivers/flash/flash_sam_eefc.c:88-98 | the block loop makes no poll and issues at most `count` commands; 0 after all of them; -EIO right after the first command not acknowledged 0x1; every earlier acknowledgment was 0x1 |
| FlashSpec.EraseBlocksPrefix | drivers/flash/flash_sam_eefc.c:88-97 | the block loop's commands are a prefix of the all-acknowledged command sequence |
| FlashSpec.BlockCmdsArgs | drivers/flash/flash_sam_eefc.c:90-96 | command j erases from page `(start + j*step) mod 2^16`, with bit 1 set |
| FlashSpec.EraseRegularShape | drivers/flash/flash_sam_eefc.c:85-98 | with offset and len multiples of erase_len (not the whole-chip case), erase is one poll followed by the block loop from offset/page_size in steps of 16 pages |
| FlashSpec.EraseIssuesBlocks | drivers/flash/flash_sam_eefc.c:85-98 | such an erase polls once and issues at most len/erase_len erase-pages commands; command j has argument `((offset/page_size + 16 j) mod 2^16) + 2` |
| FlashSpec.EraseBlocksOutcome | drivers/flash/flash_sam_eefc.c:88-98 | such an erase returns 0 iff all len/erase_len blocks were acknowledged 0x1; on -EIO the last command issued was rejected and every earlier one accepted |
| FlashSpec.BlockArgument | drivers/flash/flash_sam_eefc.c:90-96 | from a first page that is a multiple of 16, `start_page \| 0x2` for block j is the block's first page plus 2 |
| FlashSpec.EraseOtherShapes | drivers/flash/flash_sam_eefc.c:85-101 | a page-aligned, unlocked, ready erase whose offset or len is not a multiple of erase_len, and which is not the whole-chip case, returns -EINVAL with no command |
| FlashSpec.EraseEmpty | drivers/flash/flash_sam_eefc.c:85-98 | an aligned erase of length 0 that is not the whole-chip case issues nothing and returns 0 |
| FlashSpec.BoundsCheckWraps | drivers/flash/flash_sam_eefc.c:112 | offset 0xFFFF_FFF0 with len 0x20 passes the check as written, but reaches past the end of a 512 KiB flash |
| FlashSpec.ExceedsAsWritten | drivers/flash/flash_sam_eefc.c:112 | the bounds check as written, `(offset + len) > flash_size` on the 32-bit sum: whenever it rejects, the true end offset + len is past the flash (the converse fails, see Findings) |
| FlashSpec.WriteWrapsIntoLoop | drivers/flash/flash_sam_eefc.c:140-174 | offset 0xFE00_0000 with len 0x0200_0400 and 512-byte pages passes the alignment check and the check as written; the 16-bit start page is 0 and the end page 1, copy_len is 512, and the loop commits pages 0 and 1; the corrected write returns -EINVAL with nothing done |
| FlashSpec.ExceedsAgreesWithoutWrap | drivers/flash/flash_sam_eefc.c:144 | the corrected check agrees with the written one exactly when offset + len does not wrap; every wrapping request exceeds the flash |
| FlashSpec.Write | drivers/flash/flash_sam_eefc.c:122-182 | write, with the corrected bounds check, returns one of 0, -EACCES, -EINVAL, -EBUSY, -EIO; it returns -EACCES or -EINVAL exactly when an argument check fails, and then makes no copy, no poll and no command |
| FlashSpec.WriteCheckOrder | drivers/flash/flash_sam_eefc.c:135-146 | locked gives -EACCES; then offset or len not a multiple of 16 gives -EINVAL; then offset + len > flash_size (the corrected check, without wrap-around) gives -EINVAL; none of these copies or issues anything |
| FlashSpec.StartPage | drivers/flash/flash_sam_eefc.c:150 | start_page is offset / page_size whenever that quotient fits in the 16-bit counter |
| FlashSpec.EndPage | drivers/flash/flash_sam_eefc.c:151 | end_page is (offset + len - 4) / page_size whenever len >= 4, the sum does not wrap in 32 bits and the quotient fits in 16 bits |
| FlashSpec.CopyLen | drivers/flash/flash_sam_eefc.c:156-160 | copy_len is len when len <= page_size and page_size otherwise, so it never exceeds either |
| FlashSpec.WritePages | drivers/flash/flash_sam_eefc.c:154-181 | the page loop polls at most once per page from start to end, issues at most one write-page command per poll, and returns 0, -EBUSY or -EIO |
| FlashSpec.WritePagesFacts | drivers/flash/flash_sam_eefc.c:154-181 | the page loop copies once per iteration and commits pages from start_page in order (command j is `WP(start + j)`); 0 after every page; -EBUSY when the poll after a copy reads busy, with no command for that page; -EIO right after a rejected write-page command; all earlier polls read ready and all earlier acknowledgments were 0x1 |
| FlashSpec.WritePagesRun | drivers/flash/flash_sam_eefc.c:154-181 | once n pages have been committed, the loop's outcome is fixed by the next poll and acknowledgment (or by n being the page count) |
| FlashSpec.WritePagesAllAccepted | drivers/flash/flash_sam_eefc.c:154-181 | when every poll reads ready and every acknowledgment is 0x1, every page from start to end is committed and 0 is returned |
| FlashSpec.WritePagesIncreasing | drivers/flash/flash_sam_eefc.c:154-174 | the write-page commands carry strictly increasing page indices |
| FlashSpec.WriteWholePages | drivers/flash/flash_sam_eefc.c:150-181 | a write of n whole pages at a page boundary, with no 16-bit wrap, commits exactly those n pages in order; its copies cover exactly the len bytes asked for |
| FlashSpec.WriteOverReads | drivers/flash/flash_sam_eefc.c:150-164 | copy_len comes from the original len: 512 bytes at offset 16 with 512-byte pages commit pages 0 and 1 and read 1024 bytes of the caller's buffer |
| FlashSpec.WriteEmptyCommitsEveryPage | drivers/flash/flash_sam_eefc.c:150-154 | `len - 4` wraps for len 0: end_page becomes 0xFFFF, so an accepted empty write at offset 0 issues 65536 write-page commands and copies nothing |
| FlashSpec.Protect | drivers/flash/flash_sam_eefc.c:184-238 | write protection returns 0 or -EBUSY |
| FlashSpec.PagesPerLock | drivers/flash/flash_sam_eefc.c:195-196 | pages_per_lock whole pages fit in one lock region: `pages_per_lock * page_size <= flash_size / lock_bits_number` |
| FlashSpec.ClbCmds | drivers/flash/flash_sam_eefc.c:211-215 | the unlock loop issues lock_bits_number clear-lock-bit commands, command i with argument `i * pages_per_lock` whenever that product fits in 32 bits |
| FlashSpec.ProtectOutcome | drivers/flash/flash_sam_eefc.c:195-237 | busy: -EBUSY, no command, lock flag kept; ready: one get-lock-bits command; if the status word is non-zero, exactly lock_bits_number clear-lock-bit commands with arguments `i * pages_per_lock` in region order; the commands do not depend on `enable`; acknowledgments are ignored; the lock flag becomes `enable` and 0 is returned |
| FlashSpec.ClbArgsAreRegionStarts | drivers/flash/flash_sam_eefc.c:195-215 | the 32-bit product `i * pages_per_lock` does not wrap, and lock region i lies inside the flash |
| FlashSpec.ProtectedRejects | drivers/flash/flash_sam_eefc.c:219 | after protection is enabled, erase and write both return -EACCES with no poll and no command |
| FlashSpec.DescriptorRoundTrip | drivers/flash/flash_sam_eefc.c:265-277 | given the descriptor words of a geometry in order, init recovers exactly that geometry (erase_len = 16 pages, unlocked) and consumes every word, the plane words being discarded |
| FlashSpec.Descriptor | drivers/flash/flash_sam_eefc.c:265-277 | init reads an unlocked geometry with erase_len = 16 pages (in 32 bits) and one plane word per plane; the lock-bit count is the last word of the descriptor |
| FlashSam.Device.Init | drivers/flash/flash_sam_eefc.c:250-287 | init writes get-descriptor to the command register; it spins until the first ready poll; the device record is exactly the descriptor read from the result register, and every descriptor word is consumed |
| FlashSam.WaitReady | drivers/flash/flash_sam_eefc.c:261-263 | the spin stops at the first poll that reads ready |
| FlashSam.ReadDescriptor | drivers/flash/flash_sam_eefc.c:265-276 | reads id, size, page size and plane count; skips one word per plane; then reads the lock-bit count |
| FlashSam.Device.Erase | drivers/flash/flash_sam_eefc.c:47-102 | the return code, the commands appended to the controller's log, and the counts of polls and sends are exactly those of `FlashSpec.Erase` |
| FlashSam.Device.EraseBlockLoop | drivers/flash/flash_sam_eefc.c:88-98 | the loop issues exactly the commands of `FlashSpec.EraseBlocks`, stepping its 16-bit page counter, with no poll |
| FlashSam.Device.Read | drivers/flash/flash_sam_eefc.c:104-120 | -EINVAL iff offset + len > flash_size, with nothing returned; otherwise 0, and exactly the len window bytes from offset; no state changes and no command is issued, whatever the lock flag |
| FlashSam.Device.Write | drivers/flash/flash_sam_eefc.c:122-182 | the return code, log and counters are exactly those of `FlashSpec.Write`; the window is the old window overlaid with the first polls * copy_len bytes of the caller's buffer |
| FlashSam.Device.WritePageLoop | drivers/flash/flash_sam_eefc.c:150-181 | the loop's commands, polls and result are exactly those of `FlashSpec.WritePages`; the latch holds the bytes copied before the exit |
| FlashSam.Device.WriteOnePage | drivers/flash/flash_sam_eefc.c:156-178 | one pass copies copy_len more bytes into the latch and polls once; busy gives -EBUSY with no command; otherwise it issues `WP(page)`, with status 0 iff the acknowledgment is 0x1, else -EIO |
| FlashSam.Device.CopyToLatch | drivers/flash/flash_sam_eefc.c:162 | `memcpy` into the window: the new window is the old one overlaid with the copied bytes |
| FlashSam.Device.WriteProtection | drivers/flash/flash_sam_eefc.c:184-238 | the return code, the commands, the new lock flag and the one status read are exactly those of `FlashSpec.Protect` |
| FlashSam.Device.PagesLayout | drivers/flash/flash_sam_eefc.c:280-281 | the layout has one entry of erase_len-byte pages, as many as fit in the flash (`flash_size / erase_len`) |
| FlashSam.ProtectThenModify | drivers/flash/flash_sam_eefc.c:199-219 | enabling protection either finds the controller busy, or makes the following erase and write both return -EACCES |

## Left out

- Address translation through `flash_offset` (drivers/flash/flash_sam_eefc.c:116,148). The window is indexed from 0.
- The bit packing of command words (`EEFC_FCR_FCMD_*`, `EEFC_FCR_FARG`, `EEFC_FCR_FKEY_PASSWD`) and the `Efc` register layout. Both come from SoC headers that are not part of this model. Commands are abstract (opcode, argument) pairs.
- The internals of `soc_iap_send_flash_cmd`, a ROM call. Only its return value is modelled, as an oracle.
- The set/clear lock-bit block commented out at drivers/flash/flash_sam_eefc.c:222-235. It is dead code.
- drivers/counter/qdec_sam.c. It is a different driver and is not part of this model.
- Logging (`SYS_LOG_INF`), device registration, the `DEV_CFG`/`DEV_DATA` accessors and the API table. Only `write_block_size = 16` from the table is kept.
- What the controller's erase and write-page commands do to the flash array itself. The model records the commands in the log, not their effect on the stored bytes.
- FlashSam.Device.Erase: the window is not changed, because the effect of the erase commands on the flash contents is not modelled.
- FlashSam.Device.Write: the window shows only the latch copies, because committed pages are not distinguished from latched bytes.
- FlashSam.Device.CopyToLatch: latch bytes that fall past the end of the window are dropped. The hardware's behaviour at addresses past the flash is not modelled.
- FlashSam.Device.Write: the caller's memory is a sequence starting at the data pointer. The precondition `|data| >= SourceBytes(...)` stands for the C caller supplying the bytes the loop reads, which may be more than len (see FlashSpec.WriteOverReads).
- FlashSam.Device.Read and FlashSam.Device.Write: both use the corrected bounds check (see Findings).
- FlashSpec.Write: its bounds check (through `WriteChecksPass` and `SourceBytes`) is the corrected `Exceeds`, not the 32-bit sum of drivers/flash/flash_sam_eefc.c:144. A request whose end wraps past 2^32 gets -EINVAL with no copy and no command here; in the source it may reach the page loop, as FlashSpec.WriteWrapsIntoLoop shows.
- FlashSpec.WriteCheckOrder: its third case uses the sum without wrap-around, for the same reason; the two checks agree whenever offset + len < 2^32 (FlashSpec.ExceedsAgreesWithoutWrap).
- A negative `off_t` offset is modelled by its 32-bit unsigned image, the value the C code computes with.
- `locked` is a `bool`, standing for the `u8_t` flag; the driver only ever stores 0/1 or `enable` in it.
- The page layout is computed on demand by `PagesLayout` rather than stored in a static record at init; both give the same entry.
- Division by zero when page_size, erase_len or lock_bits_number is 0 is undefined in C. The operations that divide by them require them to be non-zero.
- FlashSam.Device.Init: the ready spin of init is unbounded in the source. The model requires that the controller reads ready within a ghost number `wait` of polls, and adds no timeout or error.
- FlashSam.Device.Init: the window's initial contents are a parameter `image`, standing for what the flash holds at boot.
- Concurrency and interrupts are not modelled. Each call runs alone.

## Findings

| source | as written | input that shows it | evidently intended | confidence | as-written member | corrected member |
|---|---|---|---|---|---|---|
| drivers/flash/flash_sam_eefc.c:112 | `(offset + len) > flash_size` (here, and again at line 144 of the same file) is evaluated in 32-bit unsigned arithmetic, so a sum past 2^32 wraps to a small value and the request is accepted | read: offset 0xFFFF_FFF0 (the `off_t` value -16), len 0x20, flash_size 0x8_0000: the wrapped sum 0x10 passes, and read copies the 16 bytes before the flash. write: offset 0xFE00_0000, len 0x0200_0400, 512-byte pages, flash_size at least 0x400: the wrapped sum 0x400 passes, start page is 0 and end page 1, so write copies 512 bytes twice to flash address 0xFE00_0000 on and commits pages 0 and 1 | reject every request whose end lies past flash_size | not executed; the C arithmetic conversions on a 32-bit target make both operands 32-bit unsigned | FlashSpec.ExceedsAsWritten, FlashSpec.BoundsCheckWraps, FlashSpec.WriteWrapsIntoLoop | FlashSpec.Exceeds, FlashSpec.ExceedsAgreesWithoutWrap, FlashSam.Device.Read, FlashSam.Device.Write |
