/** Finished integers: a small tagged integer when it fits, a heap integer otherwise. */
module IntValues {
  import opened Digits
  import opened BigIntViews

  const SMI_MAX: int := 0x3FF_FFFF_FFFF_FFFF
  const SMI_MIN: int := -0x400_0000_0000_0000

  datatype IntValue = Smi(smi: int) | Big(view: Num)

  datatype Outcome<+T> = Ok(value: T) | ValueError(message: string) | OverflowError

  ghost function ValueOf(v: IntValue): int {
    match v
    case Smi(i) => i
    case Big(view) => Int(view)
  }

  /** In canonical form exactly the integers outside the small range are on the heap. */
  ghost predicate Canonical(v: IntValue) {
    match v
    case Smi(i) => SMI_MIN <= i <= SMI_MAX
    case Big(view) => Normalized(view) && !(SMI_MIN <= Int(view) <= SMI_MAX)
  }

  method Finalize(view: Num) returns (v: IntValue)
    requires Normalized(view)
    ensures Canonical(v) && ValueOf(v) == Int(view)
  {
    var l := view.digits;
    if |l| == 0 {
      return Smi(0);
    }
    if |l| > 2 {
      MoreThanTwoDigits(view);
      return Big(view);
    }
    var magnitude: DoubleDigit := At(l, 0) + B * At(l, 1);
    TwoDigits(l);
    if view.signum > 0 {
      v := if magnitude > SMI_MAX then Big(view) else Smi(magnitude);
    } else {
      v := if magnitude > -(SMI_MIN + 1) + 1 then Big(view) else Smi(-(magnitude as int));
    }
  }

  lemma {:induction false} TwoDigits(l: seq<Digit>)
    requires 0 < |l| <= 2
    ensures Val(l) == At(l, 0) + B * At(l, 1)
  {
    ValCons(l);
    if |l| == 2 {
      ValCons(l[1..]);
    }
  }

  lemma {:induction false} MoreThanTwoDigits(view: Num)
    requires Normalized(view) && |view.digits| > 2
    ensures Abs(view) >= B * B
  {
    NormalizedPositive(view);
    BPowMono(2, |view.digits| - 1);
    assert BPow(2) == B * BPow(1) == B * B;
  }

  /** The small range is that of 59-bit two's complement. */
  lemma SmallRange()
    ensures SMI_MAX == 0x400_0000_0000_0000 - 1 && SMI_MIN == -SMI_MAX - 1
  {}

  /** Equal integers have equal finished values. */
  lemma {:induction false} CanonicalUnique(v: IntValue, w: IntValue)
    requires Canonical(v) && Canonical(w)
    ensures v == w <==> ValueOf(v) == ValueOf(w)
  {
    if v.Big? && w.Big? && Int(v.view) == Int(w.view) {
      NormalizedUnique(v.view, w.view);
    }
  }
}
