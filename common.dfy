/** Values shared by every part of the memory simulator. */
module Common {

  /** A value that may be absent, standing for the source's `null`. */
  datatype Option<+T> = None | Some(value: T)

  /** A control bit of a frame or page-table entry (the source stores 0 or 1). */
  type Bit = b: int | 0 <= b <= 1

  /** A process identifier: the zero-padded decimal string the PID generator produces. */
  type Pid = string
}
