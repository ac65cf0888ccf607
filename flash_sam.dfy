/**
 * The SAM EEFC flash driver itself: the device record `flash_sam_dev_data`
 * kept by one `Device`, the memory window at the flash's address that reads
 * copy from and writes copy into, and the driver's entry points. Each method
 * is proved to do exactly what the matching function of FlashSpec says, so
 * every lemma proved there holds of the driver.
 */
module FlashSam {
  import opened Bits
  import opened Controller
  import opened FlashSpec

  /** One entry of the page layout: `pages_count` pages of `pages_size` bytes. */
  datatype Layout = Layout(pagesCount: nat, pagesSize: nat)

  class Device {
    /** `dev_cfg->regs`: the controller's register block. */
    const regs: Efc
    // Geometry read from the controller by init and never written again
    const flashId: u32
    const flashSize: u32
    const pageSize: u32
    const eraseLen: u32
    const planesNumber: u32
    const lockBitsNumber: u32
    /** The software lock `dev_data->locked`. */
    var locked: bool
    /** The bytes mapped at `flash_offset`, one per flash address. */
    const window: array<byte>

    ghost predicate Valid()
      reads this
    {
      window.Length == flashSize && eraseLen == Mul32(pageSize, 16)
    }

    /** The device record as a value. */
    function Data(): (d: DevData)
      reads this
    {
      DevData(flashId, flashSize, pageSize, eraseLen, planesNumber, lockBitsNumber, locked)
    }

    /**
     * `flash_sam_init`: issues get-descriptor, waits for the ready bit, reads the descriptor from the
     * result register and clears the software lock. `image` is what the flash holds at boot; `wait`
     * bounds how many polls the controller stays busy.
     */
    constructor Init(regs: Efc, image: nat -> byte, ghost wait: nat)
      requires regs.ready(regs.polls + wait)
      modifies regs
      ensures this.regs == regs && Valid()
      ensures Data() == Descriptor(regs.frr, old(regs.frrReads))
      ensures regs.frrReads == old(regs.frrReads) + DescriptorLength(regs.frr, old(regs.frrReads))
      ensures regs.log == old(regs.log) + [Cmd(GETD, 0)] && regs.sent == old(regs.sent)
      ensures old(regs.polls) < regs.polls <= old(regs.polls) + wait + 1
      ensures regs.ready(regs.polls - 1) && forall q :: old(regs.polls) <= q < regs.polls - 1 ==> !regs.ready(q)
      ensures fresh(window) && forall i :: 0 <= i < window.Length ==> window[i] == image(i)
    {
      regs.WriteCommandRegister(Cmd(GETD, 0));
      WaitReady(regs, wait);
      var id, size, ps, planes, lockBits := ReadDescriptor(regs);
      this.regs := regs;
      flashId, flashSize, pageSize, planesNumber := id, size, ps, planes;
      eraseLen := Mul32(ps, 16);
      lockBitsNumber := lockBits;
      locked := false;
      window := new byte[size](i => image(i));
    }

    /** `flash_sam_erase`. */
    method Erase(offset: u32, len: u32) returns (ret: int)
      requires pageSize != 0 && eraseLen != 0
      modifies regs
      ensures var r := FlashSpec.Erase(Data(), offset, len, regs.ready(old(regs.polls)), regs.ack, old(regs.sent));
              && ret == r.ret && regs.log == old(regs.log) + r.cmds
              && regs.polls == old(regs.polls) + r.polls && regs.sent == old(regs.sent) + |r.cmds|
              && regs.frrReads == old(regs.frrReads)
    {
      if locked {
        return -EACCES;
      }
      if !IsAligned(offset, pageSize) {
        return -EINVAL;
      }
      var rdy := regs.ReadyBit();
      if !rdy {
        return -EBUSY;
      }
      var startPage := Trunc16(Div32(offset, pageSize));
      if startPage == 0 && len == flashSize {
        var a := regs.SendFlashCmd(Cmd(EA, 0));
        if a != 1 {
          return -EIO;
        } else {
          return 0;
        }
      }
      if IsAligned(len, eraseLen) && IsAligned(offset, eraseLen) {
        ret := EraseBlockLoop(startPage, Div32(len, eraseLen), Div32(eraseLen, pageSize));
        return;
      }
      return -EINVAL;
    }

    /** The erase loop: `count` erase-pages commands from `page` on, advancing the 16-bit page by `step`. */
    method EraseBlockLoop(page: u16, count: nat, step: nat) returns (ret: int)
      modifies regs
      ensures var b := EraseBlocks(page, count, step, regs.ack, old(regs.sent));
              && ret == b.ret && regs.log == old(regs.log) + b.cmds && regs.sent == old(regs.sent) + |b.cmds|
              && regs.polls == old(regs.polls) && regs.frrReads == old(regs.frrReads)
    {
      ghost var total := EraseBlocks(page, count, step, regs.ack, regs.sent);
      var next: u16 := page;
      var i := 0;
      while i < count
        invariant i <= count
        invariant regs.sent == old(regs.sent) + i && regs.polls == old(regs.polls) && regs.frrReads == old(regs.frrReads)
        invariant |regs.log| == |old(regs.log)| + i
        invariant old(regs.log) + total.cmds == regs.log + EraseBlocks(next, count - i, step, regs.ack, regs.sent).cmds
        invariant total.ret == EraseBlocks(next, count - i, step, regs.ack, regs.sent).ret
        decreases count - i
      {
        ghost var before := regs.log;
        ghost var rest := EraseBlocks(Trunc16(next + step), count - i - 1, step, regs.ack, regs.sent + 1);
        var a := regs.SendFlashCmd(Cmd(EPA, Or(next, 2)));
        if a != 1 {
          return -EIO;
        }
        assert before + ([Cmd(EPA, Or(next, 2))] + rest.cmds) == regs.log + rest.cmds;
        next := Trunc16(next + step);
        i := i + 1;
      }
      return 0;
    }

    /**
     * `flash_sam_read` with the bounds check evaluated without wrap-around: rejects a request that
     * reaches past the end of flash, otherwise returns the len bytes of flash from offset.
     */
    method Read(offset: u32, len: u32) returns (ret: int, out: seq<byte>)
      requires Valid()
      ensures ret == 0 || ret == -EINVAL
      ensures ret == -EINVAL <==> offset + len > flashSize
      ensures ret == -EINVAL ==> out == []
      ensures ret == 0 ==> |out| == len && forall i :: 0 <= i < len ==> out[i] == window[offset + i]
    {
      if Exceeds(offset, len, flashSize) {
        return -EINVAL, [];
      }
      ret, out := 0, window[offset..offset + len];
    }

    /** `memcpy` into the latch buffer mapped at flash address `at`; bytes past the window are not modelled. */
    method CopyToLatch(at: nat, bytes: seq<byte>)
      modifies window
      ensures window[..] == Overlay(old(window[..]), at, bytes)
    {
      forall j | 0 <= j < window.Length && at <= j < at + |bytes| {
        window[j] := bytes[j - at];
      }
    }

    /**
     * One pass of write's page loop: `memcpy` of the next `c` source bytes into the latch (which then holds
     * the first `src + c` of them over `base`), one ready poll, and the write-page command for `page` if ready;
     * the status is 0, -EBUSY or -EIO as the loop would return.
     */
    method WriteOnePage(ghost base: seq<byte>, offset: nat, data: seq<byte>, src: nat, c: nat, page: nat)
      returns (status: int)
      requires src + c <= |data| && window[..] == Overlay(base, offset, data[..src])
      modifies window, regs`polls, regs`sent, regs`log
      ensures window[..] == Overlay(base, offset, data[..src + c])
      ensures regs.polls == old(regs.polls) + 1
      ensures !regs.ready(old(regs.polls)) ==>
                status == -EBUSY && regs.sent == old(regs.sent) && regs.log == old(regs.log)
      ensures regs.ready(old(regs.polls)) ==>
                && regs.sent == old(regs.sent) + 1 && regs.log == old(regs.log) + [Cmd(WP, page)]
                && status == (if regs.ack(old(regs.sent)) == 1 then 0 else -EIO)
    {
      CopyToLatch(offset + src, data[src..src + c]);
      OverlayExtend(base, offset, data, src, c);
      var rdy := regs.ReadyBit();
      if !rdy {
        return -EBUSY;
      }
      var a := regs.SendFlashCmd(Cmd(WP, page));
      status := if a == 1 then 0 else -EIO;
    }

    /**
     * `flash_sam_write`, with the bounds check evaluated without wrap-around. `data` is the caller's
     * memory from the data pointer on; the loop may read past len bytes of it (see FlashSpec.SourceBytes).
     */
    method Write(offset: u32, data: seq<byte>, len: u32) returns (ret: int)
      requires Valid() && pageSize != 0
      requires |data| >= SourceBytes(Data(), offset, len)
      modifies window, regs
      ensures var r := FlashSpec.Write(Data(), offset, len, regs.ready, old(regs.polls), regs.ack, old(regs.sent));
              && ret == r.ret && regs.log == old(regs.log) + r.cmds
              && regs.polls == old(regs.polls) + r.polls && regs.sent == old(regs.sent) + |r.cmds|
              && regs.frrReads == old(regs.frrReads)
              && CopiedBytes(r.polls, CopyLen(len, pageSize)) <= |data|
              && window[..] == Overlay(old(window[..]), offset, data[..CopiedBytes(r.polls, CopyLen(len, pageSize))])
    {
      if locked {
        return -EACCES;
      }
      if !IsAligned(len, WRITE_BLOCK_SIZE) || !IsAligned(offset, WRITE_BLOCK_SIZE) {
        return -EINVAL;
      }
      if Exceeds(offset, len, flashSize) {
        return -EINVAL;
      }
      var startPage := StartPage(offset, pageSize);
      var endPage := EndPage(offset, len, pageSize);
      assert WriteChecksPass(Data(), offset, len);
      ret := WritePageLoop(offset, data, startPage, endPage, CopyLen(len, pageSize));
    }

    /**
     * The page loop of write: for each page from `first` to `last`, copy `copyLen` more bytes of `data`
     * into the latch, poll ready, issue write-page.
     */
    method WritePageLoop(offset: nat, data: seq<byte>, first: nat, last: nat, copyLen: nat) returns (ret: int)
      requires PageCount(first, last) * copyLen <= |data|
      modifies window, regs
      ensures var r := WritePages(first, last, regs.ready, old(regs.polls), regs.ack, old(regs.sent));
              && ret == r.ret && regs.log == old(regs.log) + r.cmds
              && regs.polls == old(regs.polls) + r.polls && regs.sent == old(regs.sent) + |r.cmds|
              && regs.frrReads == old(regs.frrReads)
              && CopiedBytes(r.polls, copyLen) <= |data|
              && window[..] == Overlay(old(window[..]), offset, data[..CopiedBytes(r.polls, copyLen)])
    {
      ghost var p0, k0, log0, w0 := regs.polls, regs.sent, regs.log, window[..];
      ghost var pages := PageCount(first, last);
      TimesIsProduct(pages, copyLen);
      var i: nat := first;
      ghost var n: nat := 0;
      var src: nat := 0;
      while i <= last
        invariant i == first + n && n <= pages && src == Times(n, copyLen) && src <= |data|
        invariant regs.polls == p0 + n && regs.sent == k0 + n && regs.frrReads == old(regs.frrReads)
        invariant regs.log == log0 + PageCmds(first, n)
        invariant forall q :: p0 <= q < p0 + n ==> regs.ready(q)
        invariant forall q :: k0 <= q < k0 + n ==> regs.ack(q) == 1
        invariant window[..] == Overlay(w0, offset, data[..src])
        decreases last + 1 - i
      {
        assert src + copyLen <= |data| by {
          TimesMono(n + 1, pages, copyLen);
        }
        var status := WriteOnePage(w0, offset, data, src, copyLen, i);
        src := src + copyLen;
        if status == -EBUSY {
          WritePagesRun(first, last, regs.ready, p0, regs.ack, k0, n);
          return -EBUSY;
        }
        if status == -EIO {
          WritePagesRun(first, last, regs.ready, p0, regs.ack, k0, n);
          PageCmdsSnoc(first, n);
          return -EIO;
        }
        PageCmdsSnoc(first, n);
        i := i + 1;
        n := n + 1;
      }
      WritePagesRun(first, last, regs.ready, p0, regs.ack, k0, n);
      return 0;
    }

    /**
     * `flash_sam_write_protection`: polls ready once, then issues get-lock-bits, reads the lock status and,
     * if any region is locked, clears every hardware lock bit; the software lock becomes `enable`.
     */
    method WriteProtection(enable: bool) returns (ret: int)
      requires lockBitsNumber != 0 && pageSize != 0
      modifies this`locked, regs
      ensures var ready := regs.ready(old(regs.polls));
              var r := Protect(old(Data()), enable, ready, regs.frr(old(regs.frrReads)));
              && ret == r.ret && locked == r.locked && regs.log == old(regs.log) + r.cmds
              && regs.polls == old(regs.polls) + 1 && regs.sent == old(regs.sent) + |r.cmds|
              && regs.frrReads == old(regs.frrReads) + (if ready then 1 else 0)
    {
      var lockSize := Div32(flashSize, lockBitsNumber);
      var pagesPerLock := Div32(lockSize, pageSize);
      var rdy := regs.ReadyBit();
      if !rdy {
        return -EBUSY;
      }
      var _ := regs.SendFlashCmd(Cmd(GLB, 0));
      var status := regs.ReadResult();
      ghost var log1 := regs.log;
      ghost var k1 := regs.sent;
      if status != 0 {
        for i := 0 to lockBitsNumber
          invariant regs.log == log1 + ClbCmds(i, pagesPerLock) && regs.sent == k1 + i
          invariant regs.polls == old(regs.polls) + 1 && regs.frrReads == old(regs.frrReads) + 1
        {
          var _ := regs.SendFlashCmd(Cmd(CLB, Mul32(i, pagesPerLock)));
          assert ClbCmds(i + 1, pagesPerLock) == ClbCmds(i, pagesPerLock) + [Cmd(CLB, Mul32(i, pagesPerLock))];
        }
      }
      locked := enable;
      return 0;
    }

    /**
     * `flash_sam_pages_layout` with the layout init records: one entry of erase_len-byte pages,
     * as many as fit in the flash.
     */
    function PagesLayout(): (r: seq<Layout>)
      reads this
      requires eraseLen != 0
      ensures |r| == 1 && r[0].pagesSize == eraseLen
      ensures r[0].pagesCount * eraseLen <= flashSize < (r[0].pagesCount + 1) * eraseLen
    {
      DivBounds(flashSize, eraseLen);
      [Layout(Div32(flashSize, eraseLen), eraseLen)]
    }
  }

  /** `while ((efc->EEFC_FSR & 0x1) != 1) {}`: polls until the first ready reading, at most wait + 1 polls. */
  method WaitReady(regs: Efc, ghost wait: nat)
    requires regs.ready(regs.polls + wait)
    modifies regs`polls
    ensures old(regs.polls) < regs.polls <= old(regs.polls) + wait + 1
    ensures regs.ready(regs.polls - 1) && forall q :: old(regs.polls) <= q < regs.polls - 1 ==> !regs.ready(q)
  {
    var rdy := regs.ReadyBit();
    while !rdy
      invariant old(regs.polls) < regs.polls <= old(regs.polls) + wait + 1
      invariant rdy == regs.ready(regs.polls - 1)
      invariant forall q :: old(regs.polls) <= q < regs.polls - 1 ==> !regs.ready(q)
      decreases old(regs.polls) + wait + 1 - regs.polls
    {
      rdy := regs.ReadyBit();
    }
  }

  /**
   * The descriptor reads of init: flash id, flash size, page size, plane count, one discarded
   * word per plane, lock-bit count.
   */
  method ReadDescriptor(regs: Efc) returns (id: u32, size: u32, pageSize: u32, planes: u32, lockBits: u32)
    modifies regs`frrReads
    ensures var d := Descriptor(regs.frr, old(regs.frrReads));
            && id == d.flashId && size == d.flashSize && pageSize == d.pageSize
            && planes == d.planesNumber && lockBits == d.lockBitsNumber
    ensures regs.frrReads == old(regs.frrReads) + DescriptorLength(regs.frr, old(regs.frrReads))
  {
    id := regs.ReadResult();
    size := regs.ReadResult();
    pageSize := regs.ReadResult();
    planes := regs.ReadResult();
    for i := 0 to planes
      invariant regs.frrReads == old(regs.frrReads) + 4 + i
    {
      var _ := regs.ReadResult();
    }
    lockBits := regs.ReadResult();
  }

  lemma DivBounds(x: nat, d: nat)
    requires d > 0
    ensures (x / d) * d <= x < (x / d + 1) * d
  {
    assert x == d * (x / d) + x % d;
  }

  /**
   * A client's view: enabling protection either finds the controller busy, or makes the following erase
   * and write both fail with -EACCES.
   */
  method ProtectThenModify(dev: Device, offset: u32, data: seq<byte>, len: u32) returns (p: int, e: int, w: int)
    requires dev.Valid() && dev.lockBitsNumber != 0 && dev.pageSize != 0 && dev.eraseLen != 0
    requires |data| >= SourceBytes(dev.Data(), offset, len)
    modifies dev, dev.regs, dev.window
    ensures p == 0 || p == -EBUSY
    ensures p == 0 ==> e == -EACCES && w == -EACCES
  {
    p := dev.WriteProtection(true);
    assert dev.Valid();
    assert p == 0 ==> dev.locked;
    e := dev.Erase(offset, len);
    w := dev.Write(offset, data, len);
  }
}
