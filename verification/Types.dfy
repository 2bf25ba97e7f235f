/** Types that several parts of the kernel share. */
module Types {
  import opened Bits

  datatype Option<+T> = None | Some(value: T) {
    function GetOr(default: T): T {
      match this
      case None => default
      case Some(v) => v
    }
  }

  /** include/errno.h */
  datatype Errno = ESUCC | EINVAL | ENOTFND | ENOTSUPP | EALIGN | ENOTENB

  /** `struct mm_reg` */
  datatype MmReg = MmReg(base: Word, size: Word)
}
