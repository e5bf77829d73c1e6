/** The `bencode` module of the reader: its error type and how it
    displays, the `IntegerFieldKey` validator, and `Data::from_str`, the
    split-based reading of a `<length>:<content>` byte string. */
module Bencode {
  import opened Outcomes
  import opened Iteration
  import opened Decimal
  import opened RustStr
  import opened RustNum
  import opened Failures

  /** `bencode::ErrorKind`. */
  datatype ErrorKind = Parse(msg: string) | SplitCount(count: Usize)

  const DISPLAY_PREFIX: string := "bencode error "
  const SPLIT_COUNT_TEXT: string := "expected 2 elements, got "

  /** `Display for ErrorKind`: the message, or the split-count complaint,
      after a common prefix. */
  function Display(e: ErrorKind): string {
    var msg := match e
      case Parse(m) => m
      case SplitCount(n) => SPLIT_COUNT_TEXT + DecimalString(n);
    DISPLAY_PREFIX + msg
  }

  /** What a reader of the displayed text can recover: every message
      starts with the prefix; a `Parse` message follows it verbatim; a
      `SplitCount` message ends in the decimal digits of the count, without
      leading zeros. */
  lemma DisplayReadBack(e: ErrorKind)
    ensures Display(e)[..|DISPLAY_PREFIX|] == DISPLAY_PREFIX
    ensures e.Parse? ==> Display(e)[|DISPLAY_PREFIX|..] == e.msg
    ensures e.SplitCount? ==>
              var tail := Display(e)[|DISPLAY_PREFIX| + |SPLIT_COUNT_TEXT|..];
              && Display(e)[|DISPLAY_PREFIX|..|DISPLAY_PREFIX| + |SPLIT_COUNT_TEXT|] == SPLIT_COUNT_TEXT
              && |tail| > 0 && AllDigits(tail) && Value(tail) == e.count
              && (e.count > 0 ==> tail[0] != '0')
              && (e.count == 0 ==> tail == "0")
  {
    if e.SplitCount? {
      var tail := Display(e)[|DISPLAY_PREFIX| + |SPLIT_COUNT_TEXT|..];
      assert tail == DecimalString(e.count);
    }
  }

  /** Two split-count errors display alike only when their counts agree,
      and likewise two parse errors only when their messages agree. */
  lemma DisplayInjectiveWithinCase(a: ErrorKind, b: ErrorKind)
    requires a.SplitCount? == b.SplitCount?
    ensures Display(a) == Display(b) <==> a == b
  {
    if Display(a) == Display(b) {
      DisplayReadBack(a);
      DisplayReadBack(b);
    }
  }

  /** Across the two cases the text is ambiguous: a parse error whose
      message happens to read like a split-count complaint displays exactly
      as that complaint. */
  lemma DisplayAmbiguousAcrossCases(n: Usize)
    ensures Parse(SPLIT_COUNT_TEXT + DecimalString(n)) != SplitCount(n)
    ensures Display(Parse(SPLIT_COUNT_TEXT + DecimalString(n))) == Display(SplitCount(n))
  {
  }

  /** `IntegerFieldKey`, a wrapper around an `i32`. */
  datatype IntegerFieldKey = IntegerFieldKey(value: Int32)

  /** `IntegerFieldKey::from_str`. On ASCII text `char::is_numeric` is
      `IsDigit`. Text with a digit is refused outright; otherwise the first
      two `:`-separated pieces are taken as key and value, and the value is
      parsed as an `i32` with `unwrap`. */
  function IntegerFieldKeyFromStr(s: string): Panicking<Result<IntegerFieldKey, IoErrorKind>>
    requires IsAscii(s)
  {
    if HasDigit(s) then Returns(Err(InvalidInput))
    else
      // `spl.nth(0)`, twice on the same iterator: the key, then the value
      var first := NthItem(Start(Split(s, ':')), 0);
      var second := NthItem(first.rest, 0);
      match (first.item, second.item)
      case (Some(_), Some(value)) =>
        (match ParseInt(value, I32)
         case Ok(n) => Returns(Ok(IntegerFieldKey(n)))
         case Err(e) => Panics(UnwrapErr(e)))
      case _ => Returns(Err(InvalidData))
  }

  /** `IntegerFieldKey::from_str` never yields a key: text with a digit is
      `InvalidInput`, digit-free text without `:` is `InvalidData`, and
      digit-free text with a `:` panics because its value piece has no digit
      to parse: with `Empty` when that piece is empty, with `InvalidDigit`
      otherwise. */
  lemma IntegerFieldKeyNeverOk(s: string)
    requires IsAscii(s)
    ensures var r := IntegerFieldKeyFromStr(s);
            && !(r.Returns? && r.value.Ok?)
            && (r == Returns(Err(InvalidInput)) <==> HasDigit(s))
            && (r == Returns(Err(InvalidData)) <==> !HasDigit(s) && ':' !in s)
            && (r.Panics? <==> !HasDigit(s) && ':' in s)
            && (r.Panics? ==> r.reason.UnwrapErr? && r.reason.cause in {Empty, InvalidDigit})
            && (r.Panics? ==> (r.reason.cause == Empty <==> var p := Split(s, ':'); |p| > 1 && p[1] == []))
  {
    if !HasDigit(s) {
      var pieces := Split(s, ':');
      if ':' in s {
        SplitPiecesFromInput(s, ':');
        var value := pieces[1];
        assert !HasDigit(value) by {
          forall j | 0 <= j < |value|
            ensures !IsDigit(value[j])
          {
            assert value[j] in s;
          }
        }
        ParseIntNeedsDigit(value, I32);
        ParseIntMatchesSpec(value, I32);
      }
    }
  }

  /** `Kind`, restricted to its non-generic cases. */
  datatype Kind = Str(text: string) | Int(value: Int32)

  /** `Data`: a declared length and what was read. */
  datatype Data = Data(length: Usize, kind: Kind)

  const SPLIT_COUNT_ERROR: string := "expected splitcount 2, got "
  const NO_CONTENT_ERROR: string := "failed to get content"
  const NO_LENGTH_ERROR: string := "coulndt parse length value"

  /** `Data::from_str`: split on every `:`, insist on exactly two pieces,
      parse the first as a `usize` length and keep the whole second piece
      as the content. The length is not compared with the content. */
  function DataFromStr(s: string): Result<Data, IoError> {
    var pieces := Split(s, ':');
    if |pieces| == 2 then
      // `nth(0).map(|x| x.parse::<usize>())`
      var first := NthItem(Start(pieces), 0);
      match first.item
      case Some(text) =>
        (match ParseInt(text, Usize)
         case Ok(length) =>
           // the second `nth(0)` on the same iterator
           (match NthItem(first.rest, 0).item
            case Some(content) => Ok(Data(length, Str(content)))
            case None => Err(IoError(InvalidData, NO_CONTENT_ERROR)))
         case Err(e) => Err(IoError(InvalidData, ErrorMessage(e))))
      case None => Err(IoError(InvalidData, NO_LENGTH_ERROR))
    else Err(IoError(InvalidData, SPLIT_COUNT_ERROR + DecimalString(|pieces|)))
  }

  /** Text with exactly one `:` is read as the length before it and the
      content after it: the content is the whole rest, and a length that
      does not parse as a `usize` is reported with the parse error's text. */
  lemma DataFromStrOneColon(a: string, b: string)
    requires ':' !in a && ':' !in b
    ensures ParseInt(a, Usize).Ok? ==>
              DataFromStr(a + ":" + b) == Ok(Data(ParseInt(a, Usize).value, Str(b)))
    ensures ParseInt(a, Usize).Err? ==>
              DataFromStr(a + ":" + b) == Err(IoError(InvalidData, ErrorMessage(ParseInt(a, Usize).error)))
  {
    SplitAtFirst(a, b, ':');
    SplitWithoutSeparator(b, ':');
    var pieces := Split(a + ":" + b, ':');
    assert pieces == [a, b];
    NthZeroTwice(pieces);
  }

  /** Any other number of `:` is refused, naming the number of pieces. */
  lemma DataFromStrSplitCount(s: string)
    requires multiset(s)[':'] != 1
    ensures DataFromStr(s) == Err(IoError(InvalidData, SPLIT_COUNT_ERROR + DecimalString(multiset(s)[':'] + 1)))
  {
  }

  /** `Data::from_str` succeeds exactly when the text has one `:` and the
      text before it is a `usize`; then the length is that number and the
      content is everything after the `:`. */
  lemma DataFromStrOkIff(s: string)
    ensures DataFromStr(s).Ok? <==>
              && multiset(s)[':'] == 1
              && ParseInt(s[..Find(s, ':').value], Usize).Ok?
    ensures DataFromStr(s).Ok? ==>
              var c := Find(s, ':').value;
              DataFromStr(s).value == Data(ParseInt(s[..c], Usize).value, Str(s[c + 1..]))
  {
    if multiset(s)[':'] == 1 {
      var c := Find(s, ':').value;
      var a, b := s[..c], s[c + 1..];
      assert s == a + ":" + b;
      assert multiset(s) == multiset(a) + multiset(":") + multiset(b);
      DataFromStrOneColon(a, b);
    } else {
      DataFromStrSplitCount(s);
    }
  }

  /** The declared length is taken on trust: "3:hello" gives length 3 with
      five characters of content. */
  lemma DataFromStrKeepsMismatchedLength()
    ensures DataFromStr("3:hello") == Ok(Data(3, Str("hello")))
  {
    assert "3:hello" == "3" + ":" + "hello";
    ParseDigits("3", Usize);
    DataFromStrOneColon("3", "hello");
  }

  /** The split-count message is neither of the two messages that no
      input reaches. */
  lemma SplitCountMessageIsOwn(n: nat)
    ensures SPLIT_COUNT_ERROR + DecimalString(n) !in {NO_CONTENT_ERROR, NO_LENGTH_ERROR}
  {
    var m := SPLIT_COUNT_ERROR + DecimalString(n);
    assert m[0] == 'e' && NO_CONTENT_ERROR[0] == 'f' && NO_LENGTH_ERROR[0] == 'c';
  }

  /** No integer parse error text is one of the two messages that no
      input reaches. */
  lemma ParseMessageIsOwn(e: IntErrorKind)
    ensures ErrorMessage(e) !in {NO_CONTENT_ERROR, NO_LENGTH_ERROR}
  {
    var m := ErrorMessage(e);
    assert m[0] != NO_CONTENT_ERROR[0] && m[1] != NO_LENGTH_ERROR[1];
  }

  /** The "failed to get content" and "coulndt parse length value" errors
      are never produced: with two pieces both `nth` calls find one. */
  lemma DataFromStrDeadBranches(s: string)
    ensures DataFromStr(s).Err? ==>
              && DataFromStr(s).error.kind == InvalidData
              && DataFromStr(s).error.message !in {NO_CONTENT_ERROR, NO_LENGTH_ERROR}
  {
    var pieces := Split(s, ':');
    if |pieces| != 2 {
      SplitCountMessageIsOwn(|pieces|);
    } else if ParseInt(pieces[0], Usize).Err? {
      ParseMessageIsOwn(ParseInt(pieces[0], Usize).error);
    }
  }
}
