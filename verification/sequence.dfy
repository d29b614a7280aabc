/** Wrapping 32-bit sequence numbers: serial number arithmetic of RFC 1982, section 3. */
module Sequence {
  import opened Wire

  const SPAN: int := 0x1_0000_0000
  const HALF: int := 0x8000_0000

  function WrappingAdd(a: u32, n: u32): u32 { (a + n) % SPAN }

  function WrappingSub(a: u32, b: u32): u32 { (a - b) % SPAN }

  predicate IsExactlyAckedBy(seqNo: u32, acked: u32) { WrappingSub(acked, seqNo) == 0 }

  predicate IsAtLeastAckedBy(seqNo: u32, acked: u32) { WrappingSub(acked, seqNo) < HALF }

  /** The wire number of the `n`-th event ever assigned a number, counting from one. */
  function Serial(n: nat): u32 { n % SPAN }

  /** Comparing wire numbers decides the order of the events they number, across any number of
      wrap-arounds, for events fewer than 2^31 apart: the promise of `is_at_least_acked_by`. */
  lemma SerialOrderIsEventOrder(seqNo: nat, acked: nat)
    requires -HALF < acked - seqNo < HALF
    ensures IsAtLeastAckedBy(Serial(seqNo), Serial(acked)) <==> seqNo <= acked
    ensures IsExactlyAckedBy(Serial(seqNo), Serial(acked)) <==> seqNo == acked
  {
    SubOfSerials(acked, seqNo);
  }

  lemma SubOfSerials(a: nat, b: nat)
    ensures WrappingSub(Serial(a), Serial(b)) == (a - b) % SPAN
  {
  }

  /** Two numbers are incomparable exactly when they are half the circle apart. */
  lemma IncomparableIffOpposite(a: u32, b: u32)
    ensures !IsAtLeastAckedBy(a, b) && !IsAtLeastAckedBy(b, a) <==> WrappingSub(a, b) == HALF
  {
  }

  lemma AdvanceTwice(n: u32, a: u32, b: u32)
    requires a + b <= U32_MAX
    ensures WrappingAdd(WrappingAdd(n, a), b) == WrappingAdd(n, a + b)
  {
  }

  lemma AdvanceIsSerial(n: nat, k: u32)
    ensures WrappingAdd(Serial(n), k) == Serial(n + k)
  {
  }
}
