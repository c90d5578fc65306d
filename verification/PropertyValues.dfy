/** Options and results, and the string / 64-bit integer pair in which every accessor
    reading is kept. */
module PropertyValues {

  datatype Option<+T> = None | Some(value: T)

  /** A result, or an exception. */
  datatype Result<+T> = Ok(value: T) | Throws

  const TWO_64: nat := 0x1_0000_0000_0000_0000
  const INT64_MAX: int := 0x7FFF_FFFF_FFFF_FFFF

  datatype ValueState = Empty | StringOnly | Integer

  datatype PropertyValue = PropertyValue(strValue: string, value64: nat, state: ValueState) {

    predicate IsEmpty() {
      state.Empty?
    }

    predicate IsValidInteger() {
      state.Integer?
    }

    /** Integers compare as integers, anything else by its text. */
    predicate Equals(other: PropertyValue) {
      if IsValidInteger() && other.IsValidInteger()
      then value64 == other.value64
      else strValue == other.strValue
    }
  }

  /** A value that is never treated as an integer. */
  function OfText(text: string): PropertyValue {
    PropertyValue(text, 0, StringOnly)
  }

  predicate IsTrueWord(text: string) {
    text == "true" || text == "True" || text == "TRUE"
  }

  predicate IsFalseWord(text: string) {
    text == "false" || text == "False" || text == "FALSE"
  }

  /** A value read from text: an integer when the text is a truth word or starts
      with a number, otherwise plain text.  It is never empty. */
  function OfString(text: string): (v: PropertyValue)
    ensures v.strValue == text && !v.IsEmpty()
    ensures v.IsValidInteger() ==> v.value64 < TWO_64
  {
    if text == "" || ' ' in text then OfText(text)
    else if IsTrueWord(text) then PropertyValue(text, 1, Integer)
    else if IsFalseWord(text) then PropertyValue(text, 0, Integer)
    else
      var base := if |text| > 2 && text[0] == '0' && (text[1] == 'x' || text[1] == 'X') then 16 else 10;
      match StoLL(text, base)
      case None => OfText(text)
      case Some(n) => PropertyValue(text, if n < 0 then n + TWO_64 else n, Integer)
  }

  predicate IsSpace(c: char) {
    c == ' ' || '\t' <= c <= '\r'
  }

  function DigitValue(c: char): nat {
    if '0' <= c <= '9' then c as int - '0' as int
    else if 'a' <= c <= 'f' then c as int - 'a' as int + 10
    else if 'A' <= c <= 'F' then c as int - 'A' as int + 10
    else 16
  }

  function SkipSpaces(text: string): string {
    if text != "" && IsSpace(text[0]) then SkipSpaces(text[1..]) else text
  }

  /** The value of the longest digit prefix, after the digits read so far. */
  function DigitsPrefix(text: string, base: nat, soFar: nat): nat {
    if text != "" && DigitValue(text[0]) < base
    then DigitsPrefix(text[1..], base, soFar * base + DigitValue(text[0]))
    else soFar
  }

  /** `std::stoll`: leading white space, an optional sign, the longest run of
      digits; an error when there is no digit or the number leaves 64 bits. */
  function StoLL(text: string, base: nat): (r: Option<int>)
    ensures r.Some? ==> -INT64_MAX - 1 <= r.value <= INT64_MAX
  {
    var body := SkipSpaces(text);
    var negative := body != "" && body[0] == '-';
    var unsigned := if body != "" && (body[0] == '-' || body[0] == '+') then body[1..] else body;
    var digits :=
      if base == 16 && |unsigned| > 2 && unsigned[0] == '0' && (unsigned[1] == 'x' || unsigned[1] == 'X')
         && DigitValue(unsigned[2]) < 16
      then unsigned[2..] else unsigned;
    if digits == "" || DigitValue(digits[0]) >= base then None
    else
      var n: int := DigitsPrefix(digits, base, 0);
      var signed := if negative then -n else n;
      if -INT64_MAX - 1 <= signed <= INT64_MAX then Some(signed) else None
  }
}
