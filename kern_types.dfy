/**
 * Types shared by the kernel components: an optional value (a C pointer
 * that may be NULL, or a frame number that may be INVAL_PPN), the kernel's
 * error numbers, and the page size.
 */
module KernTypes {

  /** A value that may be absent (NULL, INVAL_PPN, "no such slot"). */
  datatype Option<+T> = None | Some(value: T)

  /**
   * The error numbers the modelled code returns itself. A code that a call
   * into VFS or user memory returns, and that the caller passes on
   * unchanged, is carried as `Passed(code)`.
   */
  datatype Errno =
    | ENOMEM
    | EFAULT
    | EINVAL
    | ENPROC
    | EMFILE
    | EBADF
    | ESPIPE
    | Passed(code: int)

  /** The status a call reports: 0, or an error number. */
  datatype Outcome = Success | Failure(error: Errno)

  /** A value handed back through a result pointer, or an error number. */
  datatype Result<+T> = Ok(value: T) | Err(error: Errno)

  /** The MIPS page size: page numbers and physical addresses differ by a shift of 12. */
  const PAGE_SIZE: nat := 4096

  /** True when `x` is a multiple of the page size (for negative `x` too). */
  predicate PageAligned(x: int) {
    x % PAGE_SIZE == 0
  }

  /** The address of the page containing `addr` (`addr & PAGE_FRAME`). */
  function PageBase(addr: nat): (b: nat)
    ensures b <= addr < b + PAGE_SIZE
    ensures PageAligned(b)
  {
    addr / PAGE_SIZE * PAGE_SIZE
  }
}
