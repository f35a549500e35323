/** Types and constants shared by every kernel component (kernel/include/types.h, cap.h, cheri.h). */
module Kernel {

  const PAGE_SIZE: nat := 4096
  const MAX_PARTITIONS: nat := 8
  const MAX_TCBS: nat := 128
  const MAX_ENDPOINTS: nat := 64
  const IPC_MSG_MAX: nat := 30
  const IPC_CAPS_MAX: nat := 3
  const WORD: nat := 0x1_0000_0000_0000_0000

  /** A 64-bit unsigned integer. */
  type Word = x: nat | x < WORD

  datatype Error =
    | Ok
    | InvalidCap
    | NoRights
    | InvalidArg
    | NoMem
    | RevokeNeeded
    | Overflow
    | PartitionDenied
    | WcetExceeded

  datatype Option<+T> = None | Some(value: T)

  datatype CapType =
    | NullCap | UntypedCap | CNodeCap | TcbCap | VSpaceCap | FrameCap | EndpointCap
    | NotificationCap | IrqCap | IommuCap | SchedContextCap | TimePartitionCap

  /** The object a capability names: the union of cap_t. */
  datatype Object =
    | NoObject
    | FrameObject(paddr: nat, perms: nat, frameColor: nat)
    | EndpointObject(ep: nat)
    | OtherObject(id: nat)

  /** The simulated CHERI capability of the hybrid build. */
  datatype HwCap = HwCap(base: nat, top: nat, addr: nat, perms: bv32, otype: nat, tag: bool, sealed: bool)

  const NULL_HW := HwCap(0, 0, 0, 0, 0, false, false)

  datatype Cap = Cap(kind: CapType, rights: bv32, badge: nat, sealed: bool, valid: bool,
                     color: nat, obj: Object, hw: HwCap)

  /** An all-zero cap_t. */
  const EMPTY_CAP := Cap(NullCap, 0, 0, false, false, 0, NoObject, NULL_HW)

  const CAP_RIGHTS_READ: bv32 := 1
  const CAP_RIGHTS_WRITE: bv32 := 2
  const CAP_RIGHTS_GRANT: bv32 := 4

  predicate HasRight(c: Cap, r: bv32) {
    c.rights & r == r
  }

  /** `a | b` on unsigned integers. */
  function BitOr(a: nat, b: nat): nat {
    if a == 0 then b
    else if b == 0 then a
    else 2 * BitOr(a / 2, b / 2) + (if a % 2 == 1 || b % 2 == 1 then 1 else 0)
  }

  function Pow2(n: nat): (r: nat)
    ensures r > 0
  {
    if n == 0 then 1 else 2 * Pow2(n - 1)
  }

  /** Or-ing a field into zero low bits is addition: the fact behind every packed word of the kernel. */
  lemma {:induction false} BitOrIsSum(hi: nat, lo: nat, width: nat)
    requires lo < Pow2(width)
    ensures BitOr(hi * Pow2(width), lo) == hi * Pow2(width) + lo
  {
    if hi == 0 || lo == 0 {
      assert hi * Pow2(width) == 0 || lo == 0;
    } else {
      var half := hi * Pow2(width - 1);
      assert hi * Pow2(width) == 2 * half by {
        assert hi * (2 * Pow2(width - 1)) == 2 * (hi * Pow2(width - 1));
      }
      BitOrIsSum(hi, lo / 2, width - 1);
      assert 2 * half != 0 by { assert half == 0 ==> false by { MulPos(hi, Pow2(width - 1)); } }
    }
  }

  lemma MulMonotone(a: nat, j: nat, k: nat)
    requires j <= k
    ensures a * j <= a * k
  {
    assert a * k == a * j + a * (k - j);
  }

  /** Reduction modulo 2^64 leaves words alone. */
  lemma SmallWord(x: nat)
    requires x < WORD
    ensures x % WORD == x
  {
  }

  /** Reducing a summand first makes no difference. */
  lemma AddWraps(a: nat, b: nat)
    ensures (a % WORD + b) % WORD == (a + b) % WORD
  {
    var q, r := a / WORD, a % WORD;
    assert a + b == WORD * q + (r + b);
    var d, m := (r + b) / WORD, (r + b) % WORD;
    assert a + b == WORD * (q + d) + m;
  }

  lemma MulPos(a: nat, b: nat)
    requires a > 0 && b > 0
    ensures a * b > 0
  {
  }
}
