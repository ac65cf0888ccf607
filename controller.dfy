/**
 * The embedded-flash controller as the driver sees it: the status register's
 * ready bit, the command register (written directly, or through the ROM's
 * in-application-programming entry `soc_iap_send_flash_cmd`), and the result
 * register. The controller's answers are an oracle fixed at construction; the
 * commands the driver issues are recorded in a ghost log.
 */
module Controller {
  import opened Bits

  /** The EEFC command codes the driver uses. */
  datatype Op = GETD | EA | EPA | WP | GLB | CLB

  /** A command word, as an abstract (command code, command argument) pair. */
  datatype Cmd = Cmd(op: Op, arg: nat)

  class Efc {
    /** Bit 0 of `EEFC_FSR` on the k-th poll: true when the controller is ready. */
    const ready: nat -> bool
    /** The value returned by the k-th call of `soc_iap_send_flash_cmd` (0x1 is success). */
    const ack: nat -> int
    /** The k-th word read from `EEFC_FRR`. */
    const frr: nat -> u32

    var polls: nat
    var sent: nat
    var frrReads: nat
    ghost var log: seq<Cmd>

    constructor (ready: nat -> bool, ack: nat -> int, frr: nat -> u32)
      ensures this.ready == ready && this.ack == ack && this.frr == frr
      ensures polls == 0 && sent == 0 && frrReads == 0 && log == []
    {
      this.ready, this.ack, this.frr := ready, ack, frr;
      polls, sent, frrReads := 0, 0, 0;
      log := [];
    }

    /** `(efc->EEFC_FSR & 0x1) == 1`. */
    method ReadyBit() returns (r: bool)
      modifies this`polls
      ensures r == ready(old(polls)) && polls == old(polls) + 1
    {
      r := ready(polls);
      polls := polls + 1;
    }

    /** `soc_iap_send_flash_cmd(0, command)`: issues the command and returns its acknowledgment. */
    method SendFlashCmd(c: Cmd) returns (ret: int)
      modifies this`sent, this`log
      ensures ret == ack(old(sent)) && sent == old(sent) + 1
      ensures log == old(log) + [c]
    {
      ret := ack(sent);
      sent := sent + 1;
      log := log + [c];
    }

    /** A direct write of `EEFC_FCR`, which returns no acknowledgment. */
    method WriteCommandRegister(c: Cmd)
      modifies this`log
      ensures log == old(log) + [c]
    {
      log := log + [c];
    }

    /** A read of `EEFC_FRR`, which yields the next result word. */
    method ReadResult() returns (w: u32)
      modifies this`frrReads
      ensures w == frr(old(frrReads)) && frrReads == old(frrReads) + 1
    {
      w := frr(frrReads);
      frrReads := frrReads + 1;
    }
  }
}
