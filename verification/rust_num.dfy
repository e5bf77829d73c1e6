/** Rust's `str::parse` for the integer types the bencode reader uses
    (`i32`, `i64`, `usize` on a 64-bit target), which is
    `from_str_radix(s, 10)`: an optional sign, then decimal digits folded
    into an accumulator one at a time, each step checked for overflow. */
module RustNum {
  import opened Outcomes
  import opened Decimal

  const USIZE_MAX: int := 0xffff_ffff_ffff_ffff
  const ISIZE_MAX: int := 0x7fff_ffff_ffff_ffff

  /** A value of Rust's `i32`. */
  type Int32 = x: int | -0x8000_0000 <= x <= 0x7fff_ffff

  /** A value of Rust's `usize` on a 64-bit target. */
  type Usize = x: int | 0 <= x <= USIZE_MAX

  /** `x as usize` for an `i64` `x`: the same 64 bits read as unsigned, so
      a non-negative value is kept and a negative one wraps around to the
      upper half of the range. */
  function I64AsUsize(x: int): (u: Usize)
    requires I64.Contains(x)
    ensures 0 <= x ==> u == x
    ensures x < 0 ==> u > I64.Max()
  {
    if x < 0 then x + USIZE_MAX + 1 else x
  }

  datatype IntType = I32 | I64 | Usize {
    predicate Signed() {
      !Usize?
    }

    function Min(): int {
      match this
      case I32 => -0x8000_0000
      case I64 => -0x8000_0000_0000_0000
      case Usize => 0
    }

    function Max(): int {
      match this
      case I32 => 0x7fff_ffff
      case I64 => 0x7fff_ffff_ffff_ffff
      case Usize => USIZE_MAX
    }

    predicate Contains(x: int) {
      Min() <= x <= Max()
    }
  }

  /** The kinds of `ParseIntError` these types can produce. */
  datatype IntErrorKind = Empty | InvalidDigit | PosOverflow | NegOverflow

  /** The text `ParseIntError` displays for each kind. */
  function ErrorMessage(k: IntErrorKind): string {
    match k
    case Empty => "cannot parse integer from empty string"
    case InvalidDigit => "invalid digit found in string"
    case PosOverflow => "number too large to fit in target type"
    case NegOverflow => "number too small to fit in target type"
  }

  /** `s.parse::<t>()`. A lone sign is an invalid digit; `-` is a sign only
      for signed types. */
  function ParseInt(s: string, t: IntType): (r: Result<int, IntErrorKind>)
    ensures r.Ok? ==> t.Contains(r.value)
  {
    if s == [] then Err(Empty)
    else if s == "+" || s == "-" then Err(InvalidDigit)
    else if s[0] == '+' then Accumulate(s[1..], t, false, 0)
    else if s[0] == '-' && t.Signed() then Accumulate(s[1..], t, true, 0)
    else Accumulate(s, t, false, 0)
  }

  /** The digit loop: each character is first checked to be a digit, then
      multiplied in and added (or, for a negative number, subtracted), and
      the step fails as soon as the accumulator leaves the type's range. */
  function Accumulate(digits: string, t: IntType, negative: bool, acc: int): (r: Result<int, IntErrorKind>)
    requires t.Contains(acc)
    ensures r.Ok? ==> t.Contains(r.value)
    decreases |digits|
  {
    if digits == [] then Ok(acc)
    else if !IsDigit(digits[0]) then Err(InvalidDigit)
    else
      var d := DigitValue(digits[0]);
      var next := if negative then acc * 10 - d else acc * 10 + d;
      if !t.Contains(next) then Err(if negative then NegOverflow else PosOverflow)
      else Accumulate(digits[1..], t, negative, next)
  }

  /** Whether `s` is read as a negative number. */
  predicate Negative(s: string, t: IntType) {
    |s| > 0 && s[0] == '-' && t.Signed()
  }

  /** What is left of `s` once a sign is taken off. */
  function Body(s: string, t: IntType): (b: string)
    ensures |b| <= |s|
  {
    if |s| > 0 && (s[0] == '+' || Negative(s, t)) then s[1..] else s
  }

  /** The magnitude, negated when a `-` was read. */
  function ApplySign(negative: bool, magnitude: nat): int {
    if negative then 0 - magnitude else magnitude
  }

  /** The reference reading of the digits `done` followed by `digits`,
      without walking them: the leading run of digits either leaves the
      range (an overflow, which the loop meets before any later bad
      character), or is followed by something that is not a digit, or is
      everything. */
  function RunOutcome(done: string, digits: string, t: IntType, negative: bool): Result<int, IntErrorKind>
    requires AllDigits(done)
  {
    var run := digits[..DigitRun(digits)];
    assert AllDigits(done + run);
    var v := ApplySign(negative, Value(done + run));
    if !t.Contains(v) then Err(if negative then NegOverflow else PosOverflow)
    else if |run| < |digits| then Err(InvalidDigit)
    else Ok(v)
  }

  /** A reference reading of `ParseInt`: the empty text, a lone sign, or the
      reference reading of what follows the sign. */
  function ParseIntSpec(s: string, t: IntType): Result<int, IntErrorKind> {
    if s == [] then Err(Empty)
    else if Body(s, t) == [] then Err(InvalidDigit)
    else RunOutcome([], Body(s, t), t, Negative(s, t))
  }

  /** Moving a leading digit from the unread text to the digits read so far
      does not change the reference reading. */
  lemma RunOutcomeShift(done: string, digits: string, t: IntType, negative: bool)
    requires AllDigits(done) && |digits| > 0 && IsDigit(digits[0])
    ensures AllDigits(done + [digits[0]])
    ensures RunOutcome(done, digits, t, negative) == RunOutcome(done + [digits[0]], digits[1..], t, negative)
  {
    var rest := digits[1..];
    DigitRunStep(digits);
    var run' := rest[..DigitRun(rest)];
    assert done + ([digits[0]] + run') == (done + [digits[0]]) + run';
  }

  /** Once the digits read so far are out of range, more digits keep them
      out of range: the reference reading is an overflow. */
  lemma RunOutcomeOverflow(done: string, digits: string, t: IntType, negative: bool)
    requires AllDigits(done)
    requires !t.Signed() ==> !negative
    requires !t.Contains(ApplySign(negative, Value(done)))
    ensures RunOutcome(done, digits, t, negative) == Err(if negative then NegOverflow else PosOverflow)
  {
    ValueMonotone(done, digits[..DigitRun(digits)]);
  }

  /** One turn of the loop after the digits `done`: the accumulator it
      computes is the signed value of `done` with the next digit appended. */
  lemma AccumulateStep(done: string, digits: string, t: IntType, negative: bool)
    requires AllDigits(done) && |digits| > 0 && IsDigit(digits[0])
    requires t.Contains(ApplySign(negative, Value(done)))
    ensures AllDigits(done + [digits[0]])
    ensures var next := ApplySign(negative, Value(done + [digits[0]]));
            Accumulate(digits, t, negative, ApplySign(negative, Value(done))) ==
              if !t.Contains(next) then Err(if negative then NegOverflow else PosOverflow)
              else Accumulate(digits[1..], t, negative, next)
  {
    ValueAppendDigit(done, digits[0]);
  }

  /** The loop, started after the digits `done`, ends as the reference
      reading says for the digits `done` followed by the rest. */
  lemma {:induction false} AccumulateReadsDigitRun(done: string, digits: string, t: IntType, negative: bool)
    requires AllDigits(done)
    requires t.Contains(ApplySign(negative, Value(done)))
    requires !t.Signed() ==> !negative
    ensures Accumulate(digits, t, negative, ApplySign(negative, Value(done))) == RunOutcome(done, digits, t, negative)
    decreases |digits|
  {
    if digits == [] || !IsDigit(digits[0]) {
      assert digits[..DigitRun(digits)] == [];
      assert done + [] == done;
    } else {
      var done' := done + [digits[0]];
      AccumulateStep(done, digits, t, negative);
      RunOutcomeShift(done, digits, t, negative);
      if t.Contains(ApplySign(negative, Value(done'))) {
        AccumulateReadsDigitRun(done', digits[1..], t, negative);
      } else {
        RunOutcomeOverflow(done', digits[1..], t, negative);
      }
    }
  }

  /** The digit-by-digit parser and the reference reading agree on every
      input. */
  lemma ParseIntMatchesSpec(s: string, t: IntType)
    ensures ParseInt(s, t) == ParseIntSpec(s, t)
  {
    if s != [] && Body(s, t) != [] {
      AccumulateReadsDigitRun([], Body(s, t), t, Negative(s, t));
    }
  }

  /** A string of digits parses to its value exactly when that value fits
      the type, and overflows otherwise. */
  lemma ParseDigits(s: string, t: IntType)
    requires |s| > 0 && AllDigits(s)
    ensures ParseInt(s, t) == if Value(s) <= t.Max() then Ok(Value(s)) else Err(PosOverflow)
  {
    ParseIntMatchesSpec(s, t);
    assert DigitRun(s) == |s|;
    assert [] + s[..|s|] == s;
  }

  /** Text that starts with a digit has no sign: its leading digits either
      overflow, or are followed by a character that is not a digit, or are
      the whole text. */
  lemma ParseUnsignedText(s: string, t: IntType)
    requires |s| > 0 && IsDigit(s[0])
    ensures var run := s[..DigitRun(s)];
            ParseInt(s, t) ==
              if Value(run) > t.Max() then Err(PosOverflow)
              else if |run| < |s| then Err(InvalidDigit)
              else Ok(Value(run))
  {
    assert Body(s, t) == s && !Negative(s, t);
    ParseIntMatchesSpec(s, t);
    var run := s[..DigitRun(s)];
    assert [] + run == run;
  }

  /** A successful parse read an optional sign and nothing but digits, and
      its result is their value with the sign applied. */
  lemma ParseIntOk(s: string, t: IntType)
    requires ParseInt(s, t).Ok?
    ensures |Body(s, t)| > 0 && AllDigits(Body(s, t))
    ensures ParseInt(s, t).value == ApplySign(Negative(s, t), Value(Body(s, t)))
  {
    ParseIntMatchesSpec(s, t);
    var body := Body(s, t);
    assert [] + body[..DigitRun(body)] == body;
  }

  /** Text without a single digit never parses as an integer. */
  lemma ParseIntNeedsDigit(s: string, t: IntType)
    requires !HasDigit(s)
    ensures ParseInt(s, t).Err?
  {
    if ParseInt(s, t).Ok? {
      ParseIntOk(s, t);
      assert false;
    }
  }
}
