/**
  The `Range` header as `static_files.rs` reads it, against the meaning that sections 14.1.1 and
  14.1.2 of RFC 9110 give to a single byte range.
 */
module ByteRange {
  import opened Wrappers
  import opened Text

  const USIZE_MAX: nat := 0xFFFF_FFFF_FFFF_FFFF

  datatype RangeError = MultiRange | Invalid

  function SaturatingSub(a: nat, b: nat): nat {
    if a < b then 0 else a - b
  }

  /** The first and last byte asked for, before they are checked against the file. */
  function ParseBounds(startText: string, endText: string, fileLen: nat): Result<(nat, nat), RangeError> {
    if startText == "" then
      match ParseUnsigned(endText, USIZE_MAX)
      case None => Err(Invalid)
      case Some(suffix) =>
        if suffix == 0 then Err(Invalid)
        else Ok((SaturatingSub(fileLen, suffix), SaturatingSub(fileLen, 1)))
    else
      match ParseUnsigned(startText, USIZE_MAX)
      case None => Err(Invalid)
      case Some(start) =>
        if endText == "" then Ok((start, SaturatingSub(fileLen, 1)))
        else
          match ParseUnsigned(endText, USIZE_MAX)
          case None => Err(Invalid)
          case Some(end) => Ok((start, end))
  }

  function ParseSingleRange(header: string, fileLen: nat): (r: Result<(nat, nat), RangeError>)
    ensures r.Ok? ==> r.value.0 <= r.value.1 < fileLen
  {
    var range := Trim(header);
    if !("bytes=" <= range) then Err(Invalid)
    else
      var spec := range[6..];
      if ',' in spec then Err(MultiRange)
      else
        match Find(spec, "-")
        case None => Err(Invalid)
        case Some(dash) =>
          var (start, end) :- ParseBounds(spec[..dash], spec[dash + 1..], fileLen);
          if fileLen == 0 || start >= fileLen || end >= fileLen || start > end then Err(Invalid)
          else Ok((start, end))
  }

  // ---- The standard's reading ----

  /** The three forms of a single byte range as text, and what they say. Positions are digit strings of any
      length, with or without leading zeros. */
  datatype RangeText = FirstLastText(a: string, b: string) | FromText(a: string) | SuffixText(b: string)

  datatype RangeSpec = FirstLast(first: nat, last: nat) | From(first: nat) | Suffix(length: nat)

  predicate IsNumber(s: string) {
    s != "" && AllDigits(s)
  }

  predicate WellFormed(t: RangeText) {
    (t.SuffixText? || IsNumber(t.a)) && (t.FromText? || IsNumber(t.b))
  }

  /** Range unit names are compared without regard to case. */
  predicate IsBytesUnit(bytesUnit: string) {
    Lower(bytesUnit) == "bytes"
  }

  function Meaning(t: RangeText): RangeSpec
    requires WellFormed(t)
  {
    match t
    case FirstLastText(a, b) => FirstLast(DigitsValue(a), DigitsValue(b))
    case FromText(a) => From(DigitsValue(a))
    case SuffixText(b) => Suffix(DigitsValue(b))
  }

  function Print(bytesUnit: string, t: RangeText): string {
    bytesUnit + "=" + match t
                      case FirstLastText(a, b) => a + "-" + b
                      case FromText(a) => a + "-" + ""
                      case SuffixText(b) => "" + "-" + b
  }

  /** The first and last byte that a valid and satisfiable range selects. A last position past the end
      means "up to the end", and a suffix longer than the file means all of it. */
  function Selects(r: RangeSpec, fileLen: nat): Option<(nat, nat)> {
    match r
    case FirstLast(first, last) =>
      if first <= last && first < fileLen then Some((first, if last < fileLen then last else fileLen - 1)) else None
    case From(first) => if first < fileLen then Some((first, fileLen - 1)) else None
    case Suffix(length) =>
      if 0 < length && 0 < fileLen then Some((if length < fileLen then fileLen - length else 0, fileLen - 1)) else None
  }

  predicate FitsUsize(r: RangeSpec) {
    match r
    case FirstLast(first, last) => first <= USIZE_MAX && last <= USIZE_MAX
    case From(first) => first <= USIZE_MAX
    case Suffix(length) => length <= USIZE_MAX
  }

  lemma SpecParts(a: string, b: string)
    requires AllDigits(a) && AllDigits(b)
    ensures var spec := a + "-" + b;
            && Trim("bytes=" + spec) == "bytes=" + spec && ',' !in spec
            && Find(spec, "-") == Some(|a|) && spec[..|a|] == a && spec[|a| + 1..] == b
  {
    var spec := a + "-" + b;
    var header := "bytes=" + spec;
    NotInDigits(a, ',');
    NotInDigits(b, ',');
    NotInDigits(a, '-');
    assert header[0] == 'b' && !IsWhitespace(header[|header| - 1]) by {
      if b != "" {
        assert IsDigit(b[|b| - 1]);
      }
    }
    TrimTrims(header);
    hide Trim;
    SplitOnceChar(a, '-', b);
    var dash := Find(spec, "-").value;
    assert (spec[..dash], spec[dash + 1..]) == (a, b);
  }

  lemma ParseOfSpec(a: string, b: string, fileLen: nat)
    requires AllDigits(a) && AllDigits(b)
    ensures ParseSingleRange("bytes=" + (a + "-" + b), fileLen) ==
            match ParseBounds(a, b, fileLen)
            case Err(e) => Err(e)
            case Ok((start, end)) =>
              if fileLen == 0 || start >= fileLen || end >= fileLen || start > end then Err(Invalid)
              else Ok((start, end))
  {
    hide ParseBounds, Trim, Find;
    SpecParts(a, b);
    assert ("bytes=" + (a + "-" + b))[6..] == a + "-" + b;
  }

  lemma OtherSpelling(bytesUnit: string, t: RangeText, fileLen: nat)
    requires IsBytesUnit(bytesUnit) && bytesUnit != "bytes" && WellFormed(t)
    ensures ParseSingleRange(Print(bytesUnit, t), fileLen) == Err(Invalid)
  {
    var header := Print(bytesUnit, t);
    assert |bytesUnit| == |Lower(bytesUnit)| == 5;
    assert header[..5] == bytesUnit;
    assert !IsWhitespace(header[0]) by {
      assert Lower(bytesUnit)[0] == 'b';
    }
    var end := header[|header| - 1];
    assert end == '-' || IsDigit(end) by {
      if t.FirstLastText? || t.SuffixText? {
        assert end == t.b[|t.b| - 1];
      }
    }
    TrimTrims(header);
  }

  /** On a well-formed range the parser never disagrees with the standard about which bytes are meant;
      it answers exactly when the standard does, the unit is spelled in lower case, the numbers fit a
      `usize`, and an explicit last position lies inside the file. */
  lemma ParseMatchesStandard(bytesUnit: string, t: RangeText, fileLen: nat)
    requires IsBytesUnit(bytesUnit) && WellFormed(t) && fileLen <= USIZE_MAX
    ensures var r := Meaning(t);
            ParseSingleRange(Print(bytesUnit, t), fileLen) ==
            if bytesUnit == "bytes" && Selects(r, fileLen).Some? && FitsUsize(r) && (r.FirstLast? ==> r.last < fileLen)
            then Ok(Selects(r, fileLen).value) else Err(Invalid)
  {
    hide ParseSingleRange, ParseUnsigned, DigitsValue;
    if bytesUnit != "bytes" {
      OtherSpelling(bytesUnit, t, fileLen);
    } else {
      assert "bytes" + "=" == "bytes=";
      match t
      case FirstLastText(a, b) =>
        ParseOfSpec(a, b, fileLen);
        ParseDigits(a, USIZE_MAX);
        ParseDigits(b, USIZE_MAX);
      case FromText(a) =>
        ParseOfSpec(a, "", fileLen);
        ParseDigits(a, USIZE_MAX);
      case SuffixText(b) =>
        ParseOfSpec("", b, fileLen);
        ParseDigits(b, USIZE_MAX);
    }
  }

  /** The standard clamps a last position past the end of the file; the parser refuses it. Here is one. */
  lemma LastPositionIsNotClamped()
    ensures Selects(Meaning(FirstLastText("5", "20")), 20) == Some((5, 19))
    ensures ParseSingleRange("bytes=5-20", 20) == Err(Invalid)
  {
    NumbersOfTheExamples();
    ParseMatchesStandard("bytes", FirstLastText("5", "20"), 20);
    assert Print("bytes", FirstLastText("5", "20")) == "bytes=5-20";
  }

  /** The unit's name may be written in any case; the parser knows one. Here is another, and one with leading
      zeros that it reads well. */
  lemma UnitCaseMatters()
    ensures IsBytesUnit("Bytes") && Selects(Meaning(FirstLastText("0", "4")), 20) == Some((0, 4))
    ensures ParseSingleRange("Bytes=0-4", 20) == Err(Invalid)
    ensures ParseSingleRange("bytes=00-04", 20) == Ok((0, 4))
  {
    hide ParseSingleRange, ParseUnsigned;
    NumbersOfTheExamples();
    UnitsOfTheExamples();
    hide Lower, DigitsValue;
    ParseMatchesStandard("Bytes", FirstLastText("0", "4"), 20);
    ParseMatchesStandard("bytes", FirstLastText("00", "04"), 20);
    assert Print("Bytes", FirstLastText("0", "4")) == "Bytes=0-4";
    assert Print("bytes", FirstLastText("00", "04")) == "bytes=00-04";
  }

  lemma UnitsOfTheExamples()
    ensures IsBytesUnit("Bytes") && IsBytesUnit("bytes")
  {
    assert Lower("Bytes") == "bytes" && Lower("bytes") == "bytes";
  }

  lemma NumbersOfTheExamples()
    ensures IsNumber("5") && IsNumber("20") && IsNumber("0") && IsNumber("4") && IsNumber("00") && IsNumber("04")
    ensures DigitsValue("5") == 5 && DigitsValue("20") == 20 && DigitsValue("0") == 0 && DigitsValue("4") == 4
    ensures DigitsValue("00") == 0 && DigitsValue("04") == 4
  {
    assert "20"[..1] == "2" && "00"[..1] == "0" && "04"[..1] == "0";
  }

  /** The parser and the standard give the same verdict exactly outside that family, for a unit in lower case
      or a range that selects nothing, and for numbers that a `usize` can hold. */
  lemma AgreesExactly(bytesUnit: string, t: RangeText, fileLen: nat)
    requires IsBytesUnit(bytesUnit) && WellFormed(t) && fileLen <= USIZE_MAX
    ensures var r := Meaning(t);
            (match Selects(r, fileLen)
             case Some(bounds) => ParseSingleRange(Print(bytesUnit, t), fileLen) == Ok(bounds)
             case None => ParseSingleRange(Print(bytesUnit, t), fileLen).Err?)
            <==> && (bytesUnit == "bytes" || Selects(r, fileLen).None?)
                 && !(r.FirstLast? && r.first < fileLen <= r.last)
                 && !(r.Suffix? && USIZE_MAX < r.length && 0 < fileLen)
  {
    hide ParseSingleRange, DigitsValue;
    ParseMatchesStandard(bytesUnit, t, fileLen);
  }

  // ---- Every header ----

  /** The two texts around the dash ask for these bytes of a file: a suffix, a first position, or a first and a last
      one, each a `usize`. */
  predicate AsksFor(a: string, b: string, fileLen: nat, start: nat, end: nat) {
    var first, last := ParseUnsigned(a, 0xFFFF_FFFF_FFFF_FFFF), ParseUnsigned(b, 0xFFFF_FFFF_FFFF_FFFF);
    if a == "" then
      && last.Some? && 0 < last.value
      && start == (if last.value < fileLen then fileLen - last.value else 0) && end == fileLen - 1
    else
      first == Some(start) && if b == "" then end == fileLen - 1 else last == Some(end)
  }

  predicate IsAround(spec: string, a: string, b: string) {
    spec == a + "-" + b && '-' !in a
  }

  /** Of all headers, well-formed or not, exactly these are accepted: behind "bytes=", and with white space around
      allowed, one range without a comma that asks for bytes inside the file. */
  lemma AcceptsExactly(header: string, fileLen: nat, start: nat, end: nat)
    ensures ParseSingleRange(header, fileLen) == Ok((start, end)) <==>
            && "bytes=" <= Trim(header) && ',' !in Trim(header)[6..]
            && start <= end < fileLen
            && Asked(Trim(header)[6..], fileLen, start, end)
  {
    hide ParseSingleRange, ParseBounds, AsksFor, Asked, Trim;
    IsAccepted(header, fileLen, start, end);
    var range := Trim(header);
    if "bytes=" <= range && start <= end < fileLen {
      var spec := range[6..];
      AskedExactly(spec, fileLen, start, end);
      var dash := Find(spec, "-");
      if dash.Some? {
        BoundsAre(spec[..dash.value], spec[dash.value + 1..], fileLen, start, end);
      }
    }
  }

  lemma IsAccepted(header: string, fileLen: nat, start: nat, end: nat)
    ensures ParseSingleRange(header, fileLen) == Ok((start, end)) <==>
            && "bytes=" <= Trim(header) && ',' !in Trim(header)[6..]
            && start <= end < fileLen
            && var spec := Trim(header)[6..];
               match Find(spec, "-")
               case None => false
               case Some(dash) => ParseBounds(spec[..dash], spec[dash + 1..], fileLen) == Ok((start, end))
  {
    hide Trim, ParseBounds;
    var range := Trim(header);
    if "bytes=" <= range {
      var spec := range[6..];
      if ',' !in spec {
        match Find(spec, "-")
        case None =>
          assert ParseSingleRange(header, fileLen).Err?;
        case Some(dash) =>
          var bounds := ParseBounds(spec[..dash], spec[dash + 1..], fileLen);
          if bounds.Ok? {
            var (first, last) := bounds.value;
            assert ParseSingleRange(header, fileLen) == if first <= last < fileLen then bounds else Err(Invalid);
          } else {
            assert ParseSingleRange(header, fileLen) == bounds;
          }
      } else {
        assert ParseSingleRange(header, fileLen) == Err(MultiRange);
      }
    } else {
      assert ParseSingleRange(header, fileLen).Err?;
    }
  }

  /** The text behind "bytes=" asks for these bytes. */
  ghost predicate Asked(spec: string, fileLen: nat, start: nat, end: nat) {
    exists a, b :: IsAround(spec, a, b) && AsksFor(a, b, fileLen, start, end)
  }

  lemma AskedExactly(spec: string, fileLen: nat, start: nat, end: nat)
    ensures Asked(spec, fileLen, start, end) <==>
            match Find(spec, "-")
            case None => false
            case Some(dash) => AsksFor(spec[..dash], spec[dash + 1..], fileLen, start, end)
  {
    hide AsksFor;
    if '-' in spec {
      AroundFirst(spec, '-');
      var dash := Find(spec, "-").value;
      assert IsAround(spec, spec[..dash], spec[dash + 1..]);
      forall a, b | IsAround(spec, a, b)
        ensures a == spec[..dash] && b == spec[dash + 1..]
      {
        SplitOnceChar(a, '-', b);
        var split := SplitOnce(spec, "-").value;
        assert split == (a, b) && split == (spec[..dash], spec[dash + 1..]);
      }
    } else {
      NoOccurrence(spec, '-');
      NotAround(spec);
    }
  }

  lemma NotAround(spec: string)
    requires '-' !in spec
    ensures forall a, b :: !IsAround(spec, a, b)
  {
    forall a, b
      ensures !IsAround(spec, a, b)
    {
      assert (a + "-" + b)[|a|] == '-';
    }
  }

  lemma BoundsAre(a: string, b: string, fileLen: nat, start: nat, end: nat)
    requires start <= end < fileLen
    ensures ParseBounds(a, b, fileLen) == Ok((start, end)) <==> AsksFor(a, b, fileLen, start, end)
  {
    hide ParseUnsigned;
  }
}
