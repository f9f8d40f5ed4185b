/** Machine words of the host. */
module Words {
  const RANGE_USIZE: nat := 0x1_0000_0000_0000_0000

  /** Sums of these wrap around in builds without overflow checks. */
  type Usize = x: nat | x < RANGE_USIZE witness 0
}
