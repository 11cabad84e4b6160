/** The range instance that exercises the validation pattern: an unsigned
    byte is valid when it lies in 5..=10, too small below and too big above. */
module ByteRange {
  import opened Tiva

  /** Rust's `u8`. */
  newtype U8 = x: int | 0 <= x < 0x100

  /** The two ways a byte can fail the check. */
  datatype Error = TooSmall | TooBig

  /** The byte's own validity check. */
  function RangeValidity(x: U8): (r: Validity<Error>)
    ensures r == Valid <==> 5 <= x <= 10
    ensures r == InValid(TooSmall) <==> x < 5
    ensures r == InValid(TooBig) <==> x > 10
  {
    if x < 5 then InValid(TooSmall)
    else if x > 10 then InValid(TooBig)
    else Valid
  }

  /** The bytes to which the check gives outcome `o`. */
  ghost function WithOutcome(o: Validity<Error>): set<U8>
  {
    set x: U8 | RangeValidity(x) == o
  }

  /** The bytes lo, lo + 1, ..., hi - 1. */
  ghost function Interval(lo: int, hi: int): set<U8>
  {
    set x: U8 | Between(lo, x, hi)
  }

  ghost predicate Between(lo: int, x: U8, hi: int)
  {
    lo <= x as int < hi
  }

  lemma {:induction false} IntervalSize(lo: int, hi: int)
    requires 0 <= lo <= hi <= 0x100
    ensures |Interval(lo, hi)| == hi - lo
    decreases hi - lo
  {
    if lo < hi {
      assert Interval(lo, hi) == Interval(lo + 1, hi) + {lo as U8};
      IntervalSize(lo + 1, hi);
    } else {
      assert Interval(lo, hi) == {};
    }
  }

  /** Every byte gets exactly one outcome: the five bytes below 5 are too
      small, the six bytes 5..=10 are valid, and the 245 bytes above 10 are
      too big. */
  lemma OutcomeCensus()
    ensures WithOutcome(InValid(TooSmall)) == Interval(0, 5)
    ensures WithOutcome(Valid) == Interval(5, 11)
    ensures WithOutcome(InValid(TooBig)) == Interval(11, 0x100)
    ensures |WithOutcome(InValid(TooSmall))| == 5
    ensures |WithOutcome(Valid)| == 6
    ensures |WithOutcome(InValid(TooBig))| == 245
  {
    assert WithOutcome(InValid(TooSmall)) == Interval(0, 5);
    assert WithOutcome(Valid) == Interval(5, 11);
    assert WithOutcome(InValid(TooBig)) == Interval(11, 0x100);
    IntervalSize(0, 5);
    IntervalSize(5, 11);
    IntervalSize(11, 0x100);
  }

  /** A wrapper whose recorded check is the byte's own check was built from
      a byte in 5..=10, whatever has been written to it since. */
  lemma RangeWrapperChecked(w: Validated<U8, Error>)
    requires w.Invariant() && w.validity == RangeValidity
    ensures 5 <= w.Checked() <= 10
  {
  }

  /** The `deref` test: 0 fails as too small, 7 passes and reads back as 7,
      11 fails as too big. */
  method DerefTest() returns (zeroError: Error, sevenRead: U8, elevenError: Error)
    ensures zeroError == TooSmall
    ensures sevenRead == 7
    ensures elevenError == TooBig
  {
    var r := Validate(0, RangeValidity);
    zeroError := r.error;
    r := Validate(7, RangeValidity);
    sevenRead := r.value.Deref();
    r := Validate(11, RangeValidity);
    elevenError := r.error;
  }

  /** The `deref_mut` test: 7 passes, `+= 1` through the wrapper, and the
      next read sees 8. */
  method DerefMutTest() returns (read: U8)
    ensures read == 8
  {
    var r := Validate(7, RangeValidity);
    var w := r.value;
    w.DerefMut((x: U8) requires x < 0xFF => x + 1);
    read := w.Deref();
  }

  /** Mutation is not re-checked: 10 passes, `+= 1` through the wrapper
      gives 11, which the check would reject, yet the wrapper still holds it. */
  method StaleAfterMutation() returns (read: U8, now: Validity<Error>)
    ensures read == 11
    ensures now == InValid(TooBig)
  {
    var r := Validate(10, RangeValidity);
    var w := r.value;
    w.DerefMut((x: U8) requires x < 0xFF => x + 1);
    read := w.Deref();
    now := RangeValidity(read);
  }
}
