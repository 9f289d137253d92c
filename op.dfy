/** The transfer descriptors the DMA engine accepts. */
module Op {

  /** One segment of a memcpy chain: copy sz bytes from src to dst. */
  datatype MemCpy = MemCpy(src: int, dst: int, sz: nat)

  /** One segment of a devcpy chain: a MemCpy plus the device's access width
      (accSz bytes), the number of accesses per device request (chkSz), and
      whether the source and destination addresses advance after each access. */
  datatype DevCpy = DevCpy(
    src: int, dst: int, sz: nat,
    accSz: nat, chkSz: nat,
    incSrc: bool, incDst: bool)
}
