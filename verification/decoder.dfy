/** `decode_bencoded_value`: the reader's handling of the bencode byte
    string form `<length>:<bytes>`, on ASCII text, where every failure is a
    panic. The `serde_json::Value::String` it returns is modelled by the
    string it wraps. */
module Decoder {
  import opened Outcomes
  import opened Decimal
  import opened RustStr
  import opened RustNum
  import opened Failures
  import opened Bencode

  /** `decode_bencoded_value`: the first character must be a digit; the
      text up to the first `:` is parsed as an `i64` length, which is cast
      to `usize`; the result is that many bytes after the colon. */
  function DecodeBencodedValue(s: string): Panicking<string>
    requires IsAscii(s)
  {
    if s == [] then Panics(UnwrapNone)             // `chars().next().unwrap()`
    else if !IsDigit(s[0]) then Panics(Unhandled(s))
    else
      match Find(s, ':')
      case None => Panics(UnwrapNone)              // `find(':').unwrap()`
      case Some(colon) =>
        match ParseInt(s[..colon], I64)
        case Err(e) => Panics(UnwrapErr(e))        // `parse::<i64>().unwrap()`
        case Ok(number) =>
          var end := colon + 1 + I64AsUsize(number);
          if end > |s| then Panics(SliceOutOfRange(end, |s|))
          else Returns(s[colon + 1..end])
  }

  /** The inputs the decoder accepts, described without `find` or `parse`:
      a non-empty run of digits directly followed by `:`, whose value fits
      an `i64` and does not exceed the number of characters after the
      colon. */
  predicate WellFormed(s: string) {
    var k := DigitRun(s);
    && 0 < k < |s| && s[k] == ':'
    && Value(s[..k]) <= I64.Max()
    && k + 1 + Value(s[..k]) <= |s|
  }

  /** The end of what a well-formed input's length prefix covers. */
  function WindowEnd(s: string): (end: nat)
    requires WellFormed(s)
    ensures end <= |s|
  {
    DigitRun(s) + 1 + Value(s[..DigitRun(s)])
  }

  /** The declared number of characters right after the first colon. */
  function Content(s: string): string
    requires WellFormed(s)
  {
    s[DigitRun(s) + 1..WindowEnd(s)]
  }

  /** When the text starts with a digit and has a `:`, the first colon
      lies past the leading digits, and the length prefix parses as the
      reference reading of those digits predicts. */
  lemma LengthPrefixParse(s: string)
    requires |s| > 0 && IsDigit(s[0]) && ':' in s
    ensures var c := Find(s, ':').value;
            var k := DigitRun(s);
            && k <= c
            && (s[k] == ':' <==> k == c)
            && ParseInt(s[..c], I64) ==
                 if Value(s[..k]) > I64.Max() then Err(PosOverflow)
                 else if k < c then Err(InvalidDigit)
                 else Ok(Value(s[..k]))
  {
    var c := Find(s, ':').value;
    var k := DigitRun(s);
    assert k > 0 && k <= c;
    var prefix := s[..c];
    assert prefix[..k] == s[..k];
    assert k < c ==> prefix[k] == s[k];
    DigitRunUnique(prefix, k);
    assert prefix[0] == s[0];
    ParseUnsignedText(prefix, I64);
  }

  /** The decoder returns exactly on the well-formed inputs, and then
      returns the declared number of characters after the first colon. */
  lemma DecodeMatchesReference(s: string)
    requires IsAscii(s)
    ensures DecodeBencodedValue(s).Returns? <==> WellFormed(s)
    ensures WellFormed(s) ==> DecodeBencodedValue(s) == Returns(Content(s))
  {
    if |s| > 0 && IsDigit(s[0]) && ':' in s {
      LengthPrefixParse(s);
    }
  }

  /** The decoder panics on text that does not even start like a byte
      string: empty text, a first character that is not a digit, or no
      colon anywhere. */
  lemma DecodeRejectsShape(s: string)
    requires IsAscii(s)
    ensures s == [] ==> DecodeBencodedValue(s) == Panics(UnwrapNone)
    ensures s != [] && !IsDigit(s[0]) ==> DecodeBencodedValue(s) == Panics(Unhandled(s))
    ensures s != [] && IsDigit(s[0]) && ':' !in s ==> DecodeBencodedValue(s) == Panics(UnwrapNone)
  {
  }

  /** The decoder panics with an overflow when the digits that start the
      text are too many for an `i64`, even before the colon is reached. */
  lemma DecodeRejectsOverflow(s: string)
    requires IsAscii(s) && s != [] && IsDigit(s[0]) && ':' in s
    requires Value(s[..DigitRun(s)]) > I64.Max()
    ensures DecodeBencodedValue(s) == Panics(UnwrapErr(PosOverflow))
  {
    LengthPrefixParse(s);
  }

  /** The decoder panics with an invalid digit when something other than a
      digit stands between the leading digits and the first colon. */
  lemma DecodeRejectsNonDigitLength(s: string)
    requires IsAscii(s) && s != [] && IsDigit(s[0]) && ':' in s
    requires Value(s[..DigitRun(s)]) <= I64.Max() && s[DigitRun(s)] != ':'
    ensures DecodeBencodedValue(s) == Panics(UnwrapErr(InvalidDigit))
  {
    LengthPrefixParse(s);
  }

  /** The decoder panics on the slice when fewer characters follow the
      colon than the length declares; the slice end it reports is the
      colon's position plus one plus the length. */
  lemma DecodeRejectsTruncated(s: string)
    requires IsAscii(s) && s != [] && IsDigit(s[0]) && ':' in s
    requires Value(s[..DigitRun(s)]) <= I64.Max() && s[DigitRun(s)] == ':'
    requires DigitRun(s) + 1 + Value(s[..DigitRun(s)]) > |s|
    ensures DecodeBencodedValue(s) ==
              Panics(SliceOutOfRange(DigitRun(s) + 1 + Value(s[..DigitRun(s)]), |s|))
  {
    LengthPrefixParse(s);
  }

  /** Digits, a colon and enough characters make a well-formed input whose
      content is the declared number of characters after the colon. */
  lemma LengthPrefixedShape(digits: string, rest: string)
    requires |digits| > 0 && AllDigits(digits)
    requires Value(digits) <= I64.Max() && Value(digits) <= |rest|
    ensures WellFormed(digits + ":" + rest)
    ensures Content(digits + ":" + rest) == rest[..Value(digits)]
  {
    var s := digits + ":" + rest;
    var k, n := |digits|, Value(digits);
    assert s[..k] == digits && s[k] == ':';
    DigitRunUnique(s, k);
    assert s[k + 1..] == rest;
    assert s[k + 1..k + 1 + n] == s[k + 1..][..n];
  }

  /** A well-formed byte string: digits, a colon, and at least as many
      characters as the digits say. The result is the first that many of
      them, whatever they are, colons included. */
  lemma DecodeLengthPrefixed(digits: string, rest: string)
    requires |digits| > 0 && AllDigits(digits)
    requires Value(digits) <= I64.Max() && Value(digits) <= |rest|
    requires IsAscii(digits + ":" + rest)
    ensures DecodeBencodedValue(digits + ":" + rest) == Returns(rest[..Value(digits)])
  {
    LengthPrefixedShape(digits, rest);
    DecodeMatchesReference(digits + ":" + rest);
  }

  /** Whether an input is accepted, and what is returned, is decided by its
      first `WindowEnd` characters: any text that agrees with a well-formed
      one on them is well-formed with the same window and content. */
  lemma WindowDecides(s: string, u: string)
    requires WellFormed(s)
    requires WindowEnd(s) <= |u| && u[..WindowEnd(s)] == s[..WindowEnd(s)]
    ensures WellFormed(u) && WindowEnd(u) == WindowEnd(s) && Content(u) == Content(s)
  {
    var k, e := DigitRun(s), WindowEnd(s);
    assert u[..k] == u[..e][..k] && s[..k] == s[..e][..k];
    assert u[k] == u[..e][k] && s[k] == s[..e][k];
    DigitRunUnique(u, k);
    assert u[k + 1..e] == u[..e][k + 1..] && s[k + 1..e] == s[..e][k + 1..];
  }

  /** Characters after the declared window do not matter: appending text to
      an accepted input leaves the result unchanged. */
  lemma DecodeIgnoresTrailing(s: string, t: string)
    requires IsAscii(s) && IsAscii(t)
    requires DecodeBencodedValue(s).Returns?
    ensures IsAscii(s + t)
    ensures DecodeBencodedValue(s + t) == DecodeBencodedValue(s)
  {
    DecodeMatchesReference(s);
    var u := s + t;
    assert u[..WindowEnd(s)] == s[..WindowEnd(s)];
    WindowDecides(s, u);
    DecodeMatchesReference(u);
  }

  /** The result depends only on the length prefix, the colon and the
      declared window: cutting the input right after the window changes
      nothing. */
  lemma DecodeReadsOnlyWindow(s: string)
    requires IsAscii(s)
    requires DecodeBencodedValue(s).Returns?
    ensures WellFormed(s)
    ensures DecodeBencodedValue(s[..WindowEnd(s)]) == DecodeBencodedValue(s)
  {
    DecodeMatchesReference(s);
    var w := s[..WindowEnd(s)];
    assert w[..WindowEnd(s)] == w;
    WindowDecides(s, w);
    DecodeMatchesReference(w);
  }

  /** Rust strings are at most `isize::MAX` bytes long, so on an accepted
      prefix the cast of the length to `usize` keeps its value and the end
      of the window cannot overflow a `usize`. */
  lemma DecodeEndFitsUsize(s: string)
    requires |s| <= ISIZE_MAX && |s| > 0 && IsDigit(s[0]) && ':' in s
    requires ParseInt(s[..Find(s, ':').value], I64).Ok?
    ensures var number := ParseInt(s[..Find(s, ':').value], I64).value;
            && 0 <= number <= I64.Max()
            && I64AsUsize(number) == number
            && Find(s, ':').value + 1 + number <= USIZE_MAX
  {
    LengthPrefixParse(s);
  }

  /** `decode_bencoded_value("5:hello")` is "hello". */
  lemma DecodeHelloExample()
    ensures DecodeBencodedValue("5:hello") == Returns("hello")
  {
    assert "5:hello" == "5" + ":" + "hello";
    assert Value("5") == 5 by {
      assert "5"[..0] == [];
    }
    DecodeLengthPrefixed("5", "hello");
    assert "hello"[..5] == "hello";
  }

  /** "4:abc" declares four characters but has three: the slice `2..6` of
      a five-character text panics. */
  lemma DecodeTruncatedExample()
    ensures DecodeBencodedValue("4:abc") == Panics(SliceOutOfRange(6, 5))
  {
    assert Value("4") == 4 by {
      assert "4"[..0] == [];
    }
    assert DigitRun("4:abc") == 1 by {
      DigitRunUnique("4:abc", 1);
    }
    DecodeRejectsTruncated("4:abc");
  }

  /** Where both readers succeed on text with a single colon, they agree:
      `Data::from_str` declares the length the decoder returned, and its
      content begins with what the decoder returned. */
  lemma DataFromStrAgreesWithDecoder(s: string)
    requires IsAscii(s) && multiset(s)[':'] == 1
    requires DecodeBencodedValue(s).Returns?
    ensures DataFromStr(s).Ok?
    ensures DataFromStr(s).value.length == |DecodeBencodedValue(s).value|
    ensures DataFromStr(s).value.kind.Str?
    ensures DecodeBencodedValue(s).value <= DataFromStr(s).value.kind.text
  {
    DecodeMatchesReference(s);
    LengthPrefixParse(s);
    var k := DigitRun(s);
    ParseDigits(s[..k], Usize);
    DataFromStrOkIff(s);
  }
}
