/** Checks of a value against criteria, and the bitmap check that finds devices by the
    binary digits of the value (src/property_accessor.cpp, src/check_accessor.cpp). */
module CheckAccessors {
  import opened PropertyValues
  import opened Decimals
  import opened MixedRadix
  import opened CartesianProducts
  import opened Patterns
  import opened Bits

  datatype Key = Bitmask | Bitmap | Bitset | NotBitmask | NotBitset | Lookup | Equal | NotEqual | Other(name: string)

  /** One entry of a "check" definition. */
  datatype Criterion = Criterion(key: Key, text: string)

  /** The value to compare with: the text of the criterion unless a mask replaces it. */
  function ValueFromCriteria(mask: Option<nat>, text: string): PropertyValue {
    match mask
    case Some(m) => PropertyValue(Decimal(m), m, Integer)
    case None => OfString(text)
  }

  // ------------------------------------------------------------- reading numerals

  lemma {:induction false} DigitsPrefixAppend(a: string, c: char, soFar: nat)
    requires AllDigits(a) && IsDigit(c)
    ensures DigitsPrefix(a + [c], 10, soFar) == DigitsPrefix(a, 10, soFar) * 10 + DigitValue(c)
    decreases |a|
  {
    if a == "" {
      assert DigitsPrefix([c], 10, soFar) == DigitsPrefix("", 10, soFar * 10 + DigitValue(c));
    } else {
      assert (a + [c])[1..] == a[1..] + [c];
      DigitsPrefixAppend(a[1..], c, soFar * 10 + DigitValue(a[0]));
    }
  }

  lemma {:induction false} DigitsOfDecimal(n: nat)
    ensures DigitsPrefix(Decimal(n), 10, 0) == n
  {
    if n >= 10 {
      DigitsOfDecimal(n / 10);
      DigitsPrefixAppend(Decimal(n / 10), DigitChar(n % 10), 0);
    } else {
      DigitsPrefixAppend("", DigitChar(n), 0);
      assert Decimal(n) == "" + [DigitChar(n)];
    }
  }

  /** A decimal numeral is read as the integer it stands for, exactly if the number fits
      a signed 64-bit integer; a larger one stays plain text although 64 bits would do. */
  lemma DecimalReadsBack(n: nat)
    ensures OfString(Decimal(n)) == if n <= 9223372036854775807 then PropertyValue(Decimal(n), n, Integer)
                                    else PropertyValue(Decimal(n), 0, StringOnly)
  {
    DigitsOfDecimal(n);
    PlainNumeral(Decimal(n), n);
  }

  lemma PlainNumeral(s: string, n: nat)
    requires s != "" && IsDigit(s[0]) && ' ' !in s && DigitsPrefix(s, 10, 0) == n
    requires |s| > 2 ==> s[1] != 'x' && s[1] != 'X'
    ensures OfString(s) == if n <= 9223372036854775807 then PropertyValue(s, n, Integer)
                           else PropertyValue(s, 0, StringOnly)
  {
    assert SkipSpaces(s) == s;
    assert !IsTrueWord(s) && !IsFalseWord(s);
  }

  /** A negative numeral is read as its complement to 2^64. */
  lemma NegativeReadsBack(n: nat)
    requires n > 0
    ensures OfString("-" + Decimal(n))
         == if n <= 9223372036854775808 then PropertyValue("-" + Decimal(n), 18446744073709551616 - n, Integer)
            else PropertyValue("-" + Decimal(n), 0, StringOnly)
  {
    var s := "-" + Decimal(n);
    DigitsOfDecimal(n);
    assert s[1..] == Decimal(n) && IsDigit(s[1]) && s[0] == '-';
    assert SkipSpaces(s) == s;
  }

  /** A hexadecimal numeral, which has a prefix "0x". */
  function Hexadecimal(n: nat): (s: string)
    ensures s != "" && forall c :: c in s ==> c != ' ' && DigitValue(c) < 16
  {
    if n < 16 then [HexDigit(n)] else Hexadecimal(n / 16) + [HexDigit(n % 16)]
  }

  function HexDigit(d: nat): (c: char)
    requires d < 16
    ensures c != ' ' && DigitValue(c) == d
  {
    if d < 10 then ('0' as int + d) as char else ('a' as int + (d - 10)) as char
  }

  lemma {:induction false} HexPrefixAppend(a: string, c: char, soFar: nat)
    requires (forall x :: x in a ==> DigitValue(x) < 16) && DigitValue(c) < 16
    ensures DigitsPrefix(a + [c], 16, soFar) == DigitsPrefix(a, 16, soFar) * 16 + DigitValue(c)
    decreases |a|
  {
    if a == "" {
      assert DigitsPrefix([c], 16, soFar) == DigitsPrefix("", 16, soFar * 16 + DigitValue(c));
    } else {
      assert (a + [c])[1..] == a[1..] + [c];
      HexPrefixAppend(a[1..], c, soFar * 16 + DigitValue(a[0]));
    }
  }

  lemma {:induction false} DigitsOfHexadecimal(n: nat)
    ensures DigitsPrefix(Hexadecimal(n), 16, 0) == n
  {
    if n >= 16 {
      DigitsOfHexadecimal(n / 16);
      HexPrefixAppend(Hexadecimal(n / 16), HexDigit(n % 16), 0);
    } else {
      HexPrefixAppend("", HexDigit(n), 0);
      assert Hexadecimal(n) == "" + [HexDigit(n)];
    }
  }

  lemma HexadecimalReadsBack(n: nat)
    ensures OfString("0x" + Hexadecimal(n))
         == if n <= 9223372036854775807 then PropertyValue("0x" + Hexadecimal(n), n, Integer)
            else PropertyValue("0x" + Hexadecimal(n), 0, StringOnly)
  {
    var h := Hexadecimal(n);
    var s := "0x" + h;
    DigitsOfHexadecimal(n);
    assert s[0] == '0' && s[1] == 'x' && s[2] == h[0] && s[2..] == h;
    assert SkipSpaces(s) == s;
  }

  /** Numbers are read up to the first character that is not a digit. */
  lemma TrailingTextIsIgnored(n: nat, rest: string)
    requires rest != "" && !IsDigit(rest[0]) && rest[0] != 'x' && rest[0] != 'X' && ' ' !in rest
    ensures OfString(Decimal(n) + rest)
         == if n <= 9223372036854775807 then PropertyValue(Decimal(n) + rest, n, Integer)
            else PropertyValue(Decimal(n) + rest, 0, StringOnly)
  {
    var s := Decimal(n) + rest;
    DigitsOfDecimal(n);
    DigitsStop(Decimal(n), rest, 0);
    hide DigitsPrefix, Decimal, OfString;
    assert s[0] == Decimal(n)[0] && s[1] == if |Decimal(n)| > 1 then Decimal(n)[1] else rest[0];
    assert ' ' !in Decimal(n);
    PlainNumeral(s, n);
  }

  lemma {:induction false} DigitsStop(a: string, rest: string, soFar: nat)
    requires AllDigits(a) && rest != "" && !IsDigit(rest[0])
    ensures DigitsPrefix(a + rest, 10, soFar) == DigitsPrefix(a, 10, soFar)
    decreases |a|
  {
    if a == "" {
      assert a + rest == rest;
    } else {
      assert (a + rest)[1..] == a[1..] + rest;
      DigitsStop(a[1..], rest, soFar * 10 + DigitValue(a[0]));
    }
  }

  /** The truth words are integers; text with a space, or that starts with neither a
      digit, a sign nor white space, is no integer otherwise. */
  lemma WordsAndText(text: string)
    ensures text == "true" || text == "True" || text == "TRUE" ==> OfString(text) == PropertyValue(text, 1, Integer)
    ensures text == "false" || text == "False" || text == "FALSE" ==> OfString(text) == PropertyValue(text, 0, Integer)
    ensures text == "" || ' ' in text ==> OfString(text) == PropertyValue(text, 0, StringOnly)
    ensures text != "" && text !in {"true", "True", "TRUE", "false", "False", "FALSE"}
              && !('0' <= text[0] <= '9') && text[0] !in {'-', '+', ' ', '\t', '\n', '\r', 11 as char, 12 as char}
            ==> OfString(text) == PropertyValue(text, 0, StringOnly)
  {
  }

  // ------------------------------------------------------------------------ checks

  predicate HasMask(v: PropertyValue, mask: nat) {
    v.IsValidInteger() && And(v.value64, mask) == mask
  }

  predicate HasBit(v: PropertyValue, mask: nat) {
    v.IsValidInteger() && And(v.value64, mask) != 0
  }

  predicate Occurs(needle: string, text: string) {
    needle <= text || (text != "" && Occurs(needle, text[1..]))
  }

  predicate Holds(v: PropertyValue, key: Key, other: PropertyValue) {
    match key
    case Bitmask => other.IsValidInteger() && HasMask(v, other.value64)
    case Bitmap => other.IsValidInteger() && HasMask(v, other.value64)
    case Bitset => other.IsValidInteger() && HasBit(v, other.value64)
    case NotBitmask => other.IsValidInteger() && !HasMask(v, other.value64)
    case NotBitset => other.IsValidInteger() && !HasBit(v, other.value64)
    case Lookup => Occurs(other.strValue, v.strValue)
    case Equal => v.Equals(other)
    case NotEqual => !v.Equals(other)
    case Other(_) => true
  }

  ghost predicate Passes(v: PropertyValue, criteria: seq<Criterion>, mask: Option<nat>) {
    && criteria != [] && !criteria[0].key.Other?
    && forall i :: 0 <= i < |criteria| ==> Holds(v, criteria[i].key, ValueFromCriteria(mask, criteria[i].text))
  }

  /** All entries must hold; an unknown key repeats the result of the entry before it,
      and fails if it comes first. */
  method Check(v: PropertyValue, criteria: seq<Criterion>, mask: Option<nat>) returns (ret: bool)
    ensures ret <==> Passes(v, criteria, mask)
    ensures ret <==>
      && criteria != [] && !criteria[0].key.Other?
      && forall c :: c in criteria && !c.key.Other? ==> Holds(v, c.key, ValueFromCriteria(mask, c.text))
  {
    ret := false;
    for i := 0 to |criteria|
      invariant i == 0 ==> !ret
      invariant i > 0 ==> ret && !criteria[0].key.Other?
      invariant forall k :: 0 <= k < i ==> Holds(v, criteria[k].key, ValueFromCriteria(mask, criteria[k].text))
    {
      var other := ValueFromCriteria(mask, criteria[i].text);
      if !criteria[i].key.Other? {
        ret := Holds(v, criteria[i].key, other);
      }
      if !ret {
        break;
      }
    }
  }

  /** What each key asks for, in binary digits and text. */
  lemma HoldsMeans(v: PropertyValue, key: Key, other: PropertyValue)
    ensures key == Bitmask || key == Bitmap ==>
      (Holds(v, key, other) <==> v.state == other.state == Integer && Included(other.value64, v.value64))
    ensures key == Bitset ==>
      (Holds(v, key, other) <==> v.state == other.state == Integer && Meet(other.value64, v.value64))
    ensures key == NotBitmask ==>
      (Holds(v, key, other) <==>
        other.state == Integer && (v.state != Integer || !Included(other.value64, v.value64)))
    ensures key == NotBitset ==>
      (Holds(v, key, other) <==> other.state == Integer && (v.state != Integer || !Meet(other.value64, v.value64)))
    ensures key == Lookup ==>
      (Holds(v, key, other) <==> exists a, b :: v.strValue == a + other.strValue + b)
    ensures key == Equal ==>
      (Holds(v, key, other) <==> if v.state == Integer && other.state == Integer then v.value64 == other.value64
                                 else v.strValue == other.strValue)
    ensures key == NotEqual ==> (Holds(v, key, other) <==> !Holds(v, Equal, other))
  {
    MaskIncluded(v.value64, other.value64);
    MaskTouched(v.value64, other.value64);
    OccursMeans(other.strValue, v.strValue);
    hide Included, Meet, And, Occurs;
  }

  lemma {:induction false} OccursMeans(needle: string, text: string)
    ensures Occurs(needle, text) <==> exists a, b :: text == a + needle + b
    decreases |text|
  {
    if needle <= text {
      assert text == "" + needle + text[|needle|..];
    } else if text != "" {
      OccursMeans(needle, text[1..]);
      if Occurs(needle, text[1..]) {
        var a, b :| text[1..] == a + needle + b;
        assert text == ([text[0]] + a) + needle + b;
      }
      if exists a, b :: text == a + needle + b {
        var a, b :| text == a + needle + b;
        AtStart(a, needle, b);
        assert text[1..] == a[1..] + needle + b;
      }
    }
  }

  lemma AtStart(a: string, needle: string, b: string)
    ensures a == "" ==> needle <= a + needle + b
  {
  }

  /** A mask takes the place of the text of a criterion. */
  lemma CriterionValue(mask: Option<nat>, text: string)
    ensures ValueFromCriteria(None, text) == OfString(text)
    ensures mask.Some? ==>
      ValueFromCriteria(mask, text).value64 == mask.value && ValueFromCriteria(mask, text).state == Integer
  {
  }

  datatype CheckStatus = NotPerformed | Passed | NotPassed

  datatype AssertedDevice = AssertedDevice(device: string, index: seq<int>)

  /** The positions below `n` in the enumeration at which the shifted mask passes. */
  ghost function Positions(v: PropertyValue, criteria: seq<Criterion>, m: nat, n: nat): seq<nat> {
    if n == 0 then []
    else Positions(v, criteria, m, n - 1) + if Passes(v, criteria, Some(ShiftLeft(m, n - 1))) then [n - 1] else []
  }

  /** The devices at some positions, as far as they have a name. */
  ghost function DevicesAt(p: Pattern, positions: seq<nat>): seq<AssertedDevice>
    requires ValidPattern(p) && forall i :: i in positions ==> i < |Listed(p)|
  {
    if positions == [] then []
    else
      var n := |positions| - 1;
      assert positions[n] in positions && forall i :: i in positions[..n] ==> i in positions;
      var index := Listed(p)[positions[n]];
      var name := NameOf(p, index);
      DevicesAt(p, positions[..n]) + if name == "" then [] else [AssertedDevice(name, index)]
  }

  ghost function NameOf(p: Pattern, index: seq<int>): string
    requires ValidPattern(p)
  {
    match Eval(p, index) case Some(name) => name case None => ""
  }

  lemma {:induction false} PositionsBelow(v: PropertyValue, criteria: seq<Criterion>, m: nat, n: nat)
    ensures forall i :: i in Positions(v, criteria, m, n) <==> 0 <= i < n && Passes(v, criteria, Some(ShiftLeft(m, i)))
    ensures forall i, j :: 0 <= i < j < |Positions(v, criteria, m, n)| ==>
      Positions(v, criteria, m, n)[i] < Positions(v, criteria, m, n)[j]
  {
    if n > 0 {
      hide Passes;
      PositionsBelow(v, criteria, m, n - 1);
      var before := Positions(v, criteria, m, n - 1);
      assert forall i :: 0 <= i < |before| ==> before[i] in before;
    }
  }

  /** Ascending positions below `n`, among the first 64 just those that pass. */
  ghost predicate PassingPositions(v: PropertyValue, criteria: seq<Criterion>, m: nat, n: nat, positions: seq<nat>) {
    && (forall i :: i in positions ==> i < n)
    && (forall i, j :: 0 <= i < j < |positions| ==> positions[i] < positions[j])
    && forall i: nat :: i < n && i < 64 ==> (i in positions <==> Passes(v, criteria, Some(ShiftLeft(m, i))))
  }

  lemma OneMorePosition(v: PropertyValue, criteria: seq<Criterion>, m: nat, n: nat, positions: seq<nat>, passes: bool)
    requires PassingPositions(v, criteria, m, n, positions)
    requires n < 64 ==> (passes <==> Passes(v, criteria, Some(ShiftLeft(m, n))))
    ensures PassingPositions(v, criteria, m, n + 1, if passes then positions + [n] else positions)
  {
    hide Passes, ShiftLeft;
    assert forall i :: 0 <= i < |positions| ==> positions[i] in positions;
  }

  /** Up to 64 devices the positions are determined. */
  lemma PositionsAreUnique(v: PropertyValue, criteria: seq<Criterion>, m: nat, n: nat)
    requires n <= 64
    ensures forall ps :: PassingPositions(v, criteria, m, n, ps) ==> ps == Positions(v, criteria, m, n)
  {
    hide Passes, Positions;
    PositionsBelow(v, criteria, m, n);
    forall ps | PassingPositions(v, criteria, m, n, ps) ensures ps == Positions(v, criteria, m, n) {
      AscendingSame(ps, Positions(v, criteria, m, n));
    }
  }

  lemma {:induction false} AscendingSame(a: seq<nat>, b: seq<nat>)
    requires forall i, j :: 0 <= i < j < |a| ==> a[i] < a[j]
    requires forall i, j :: 0 <= i < j < |b| ==> b[i] < b[j]
    requires forall x: nat :: x in a <==> x in b
    ensures a == b
    decreases |a|
  {
    assert |b| > 0 ==> b[0] in b;
    if a != [] {
      var m, n := |a| - 1, |b| - 1;
      assert a[m] == b[n] by {
        assert a[m] in a && b[n] in b;
        var i :| 0 <= i < |b| && b[i] == a[m];
        var j :| 0 <= j < |a| && a[j] == b[n];
      }
      forall x: nat ensures x in a[..m] <==> x in b[..n] {
        assert x in a <==> x in a[..m] || x == a[m];
        assert x in b <==> x in b[..n] || x == b[n];
      }
      AscendingSame(a[..m], b[..n]);
      assert a == a[..m] + [a[m]] && b == b[..n] + [b[n]];
    }
  }

  lemma OneMoreDevice(p: Pattern, positions: seq<nat>, i: nat)
    requires ValidPattern(p) && i < |Listed(p)| && forall k :: k in positions ==> k < |Listed(p)|
    ensures forall k :: k in positions + [i] ==> k < |Listed(p)|
    ensures DevicesAt(p, positions + [i]) == DevicesAt(p, positions)
      + if NameOf(p, Listed(p)[i]) == "" then [] else [AssertedDevice(NameOf(p, Listed(p)[i]), Listed(p)[i])]
  {
    assert (positions + [i])[..|positions|] == positions;
  }

  class CheckAccessor {
    const pattern: Pattern
    var lastStatus: CheckStatus
    var assertedDevices: seq<AssertedDevice>

    constructor (pattern: Pattern)
      ensures this.pattern == pattern && lastStatus == NotPerformed && assertedDevices == []
    {
      this.pattern := pattern;
      lastStatus, assertedDevices := NotPerformed, [];
    }

    method BuildSingleAssertedDeviceName(realDevice: string, index: seq<int>)
      modifies this`assertedDevices
      ensures assertedDevices
           == old(assertedDevices) + if realDevice == "" then [] else [AssertedDevice(realDevice, index)]
    {
      if realDevice != "" {
        assertedDevices := assertedDevices + [AssertedDevice(realDevice, index)];
      }
    }

    /** The bitmap branch of `subCheck`: the devices of the pattern, in the order of its
        domain, at whose positions the shifted bitmap passes. What becomes of positions
        from 64 on is open, as is a shift of 64 bits by 64 or more. */
    method SubCheckBitmap(data: PropertyValue, criteria: seq<Criterion>, bitmap: string)
      returns (ret: bool, ghost positions: seq<nat>)
      requires ValidPattern(pattern)
      modifies this
      ensures data.IsEmpty() || !OfString(bitmap).IsValidInteger() ==> positions == []
      ensures !data.IsEmpty() && OfString(bitmap).IsValidInteger() ==>
        PassingPositions(data, criteria, OfString(bitmap).value64, |Listed(pattern)|, positions)
      ensures forall i :: i in positions ==> i < |Listed(pattern)|
      ensures assertedDevices == old(assertedDevices) + DevicesAt(pattern, positions)
      ensures ret <==> positions != []
      ensures lastStatus == if ret then Passed else old(lastStatus)
    {
      NoDevices(pattern);
      ret, positions := false, [];
      if data.IsEmpty() {
        return;
      }
      var bitmapValue := OfString(bitmap);
      if bitmapValue.IsValidInteger() {
        ret, positions := WalkDevices(data, criteria, bitmapValue.value64);
      }
      if ret {
        lastStatus := Passed;
      }
    }

    /** The shift of a 64-bit number, which may be anything from 64 on. */
    method Shift(m: nat, i: nat) returns (mask: nat)
      ensures i < 64 ==> mask == ShiftLeft(m, i)
    {
      if i < 64 {
        return ShiftLeft(m, i);
      }
      mask :| mask < TWO_64;
    }

    method WalkDevices(data: PropertyValue, criteria: seq<Criterion>, m: nat)
      returns (ret: bool, ghost positions: seq<nat>)
      requires ValidPattern(pattern)
      modifies this`assertedDevices
      ensures PassingPositions(data, criteria, m, |Listed(pattern)|, positions)
      ensures forall i :: i in positions ==> i < |Listed(pattern)|
      ensures assertedDevices == old(assertedDevices) + DevicesAt(pattern, positions)
      ensures ret <==> positions != []
    {
      hide Passes, Listed, Eval, NameOf, DevicesAt, ShiftLeft;
      var devRange := DomainOf(pattern);
      ret, positions := false, [];
      NoDevices(pattern);
      for i := 0 to |devRange|
        invariant PassingPositions(data, criteria, m, i, positions)
        invariant forall k :: k in positions ==> k < |Listed(pattern)|
        invariant assertedDevices == old(assertedDevices) + DevicesAt(pattern, positions)
        invariant ret <==> positions != []
      {
        var bitmask := Shift(m, i);
        var passes := Check(data, criteria, Some(bitmask));
        OneMorePosition(data, criteria, m, i, positions, passes);
        if passes {
          ret := true;
          var deviceName := EvalAt(pattern, devRange[i]);
          ListedEvaluates(pattern, devRange[i]);
          NamedByEval(pattern, devRange[i]);
          OneMoreDevice(pattern, positions, i);
          positions := positions + [i];
          BuildSingleAssertedDeviceName(deviceName.value, devRange[i]);
        }
      }
    }

    /** The check `{"bitmap": "1"}` of a fresh object over up to 64 devices: exactly the
        devices at the binary digits of the value are asserted, in the order of the
        domain, and the check passes exactly if the value modulo 2^n is not zero. */
    method CheckBitmapOne(data: PropertyValue) returns (ret: bool)
      requires ValidPattern(pattern) && |Listed(pattern)| <= 64
      requires lastStatus == NotPerformed && assertedDevices == []
      modifies this
      ensures !data.IsValidInteger() ==> !ret && assertedDevices == []
      ensures data.IsValidInteger() ==>
        var n := |Listed(pattern)|;
        && (forall i :: i in Asserted(data, n) <==> 0 <= i < n && Bit(data.value64, i))
        && assertedDevices == DevicesAt(pattern, Asserted(data, n))
        && SumOfPowers(Asserted(data, n)) == data.value64 % Pow2(n)
        && (ret <==> data.value64 % Pow2(n) != 0)
      ensures lastStatus == if ret then Passed else NotPerformed
    {
      hide Passes, Listed, DevicesAt, Bit, Positions;
      var criteria := [Criterion(Bitmap, "1")];
      BitmapOne();
      ghost var n := |Listed(pattern)|;
      PositionsAreUnique(data, criteria, 1, n);
      if data.IsValidInteger() {
        BitmapOneReadsDigits(data, n);
      } else {
        NoIntegerNoDevice(data, "1", 1, n);
      }
      ghost var positions: seq<nat>;
      ret, positions := SubCheckBitmap(data, criteria, "1");
      NoDevices(pattern);
    }
  }

  /** The device at a position of the domain, with its name and index. */
  ghost predicate IsDeviceAt(p: Pattern, i: nat, d: AssertedDevice)
    requires ValidPattern(p)
  {
    i < |Listed(p)| && d.index == Listed(p)[i] && Eval(p, d.index) == Some(d.device)
  }

  ghost predicate HasName(p: Pattern, i: nat)
    requires ValidPattern(p)
  {
    i < |Listed(p)| && Eval(p, Listed(p)[i]) != Some("")
  }

  /** Where every device has a name, there is one asserted device for each position. */
  lemma {:induction false} DevicesAtEach(p: Pattern, positions: seq<nat>)
    requires ValidPattern(p) && forall i :: i in positions ==> HasName(p, i) && i < |Listed(p)|
    ensures |DevicesAt(p, positions)| == |positions|
    ensures forall k :: 0 <= k < |positions| ==> IsDeviceAt(p, positions[k], DevicesAt(p, positions)[k])
    decreases |positions|
  {
    hide ValidPattern, DevicesAt, Listed, IsDeviceAt, HasName;
    if positions == [] {
      NoDevices(p);
    } else {
      var n := |positions| - 1;
      assert positions[n] in positions && forall i :: i in positions[..n] ==> i in positions;
      DevicesAtEach(p, positions[..n]);
      LastDevice(p, positions[..n], positions[n]);
      assert positions == positions[..n] + [positions[n]];
    }
  }

  lemma LastDevice(p: Pattern, positions: seq<nat>, i: nat)
    requires ValidPattern(p) && HasName(p, i) && i < |Listed(p)| && forall k :: k in positions ==> k < |Listed(p)|
    ensures forall k :: k in positions + [i] ==> k < |Listed(p)|
    ensures |DevicesAt(p, positions + [i])| == |DevicesAt(p, positions)| + 1
    ensures DevicesAt(p, positions + [i])[..|DevicesAt(p, positions)|] == DevicesAt(p, positions)
    ensures IsDeviceAt(p, i, DevicesAt(p, positions + [i])[|DevicesAt(p, positions)|])
  {
    ListedEvaluates(p, Listed(p)[i]);
    NamedByEval(p, Listed(p)[i]);
    OneMoreDevice(p, positions, i);
    hide ValidPattern, DevicesAt, Listed, Eval, NameOf;
  }

  lemma NoDevices(p: Pattern)
    requires ValidPattern(p)
    ensures DevicesAt(p, []) == []
  {
  }

  lemma NamedByEval(p: Pattern, index: seq<int>)
    requires ValidPattern(p) && Eval(p, index).Some?
    ensures NameOf(p, index) == Eval(p, index).value
  {
  }

  /** Every digit of the bitmap that stays within 64 bits meets a digit of the value. */
  ghost predicate ShiftedWithin(m: nat, i: nat, value: nat) {
    forall k: nat :: Bit(m, k) && k + i < 64 ==> Bit(value, k + i)
  }

  /** A shifted bitmap passes exactly where all its digits that stay within 64 bits meet
      digits of the value; a bitmap shifted out altogether passes for every integer. */
  lemma BitmapPasses(v: PropertyValue, text: string, m: nat, i: nat)
    requires m < TWO_64 && i < 64
    ensures Passes(v, [Criterion(Bitmap, text)], Some(ShiftLeft(m, i))) <==>
      v.IsValidInteger() && ShiftedWithin(m, i, v.value64)
  {
    var mask := ShiftLeft(m, i);
    var criteria := [Criterion(Bitmap, text)];
    var other := ValueFromCriteria(Some(mask), criteria[0].text);
    assert Passes(v, criteria, Some(mask)) <==> Holds(v, criteria[0].key, other);
    MaskIncluded(v.value64, mask);
    if ShiftedWithin(m, i, v.value64) {
      forall k: nat | Bit(mask, k) ensures Bit(v.value64, k) {
        ShiftBits(m, i, k);
        assert (k - i) + i == k;
      }
    } else {
      var k: nat :| Bit(m, k) && k + i < 64 && !Bit(v.value64, k + i);
      ShiftBits(m, i, k + i);
      assert Bit(mask, k + i);
    }
  }

  function SumOfPowers(positions: seq<nat>): nat {
    if positions == [] then 0
    else SumOfPowers(positions[..|positions| - 1]) + Pow2(positions[|positions| - 1])
  }

  /** The bitmap "1" is one. */
  lemma BitmapOne()
    ensures OfString("1") == PropertyValue("1", 1, Integer)
  {
    assert DigitValue('1') == 1;
    assert "1"[1..] == "";
    assert DigitsPrefix("1", 10, 0) == DigitsPrefix("", 10, 1) == 1;
  }

  ghost function Asserted(v: PropertyValue, n: nat): seq<nat> {
    Positions(v, [Criterion(Bitmap, "1")], 1, n)
  }

  /** With the bitmap "1" over up to 64 devices, exactly the devices at the binary digits
      of the value are asserted, in the order of the domain; the powers of two at their
      positions add up to the value modulo 2^n, and the check passes if that is not zero. */
  lemma BitmapOneReadsDigits(v: PropertyValue, n: nat)
    requires n <= 64 && v.IsValidInteger()
    ensures forall i :: i in Asserted(v, n) <==> 0 <= i < n && Bit(v.value64, i)
    ensures forall i, j :: 0 <= i < j < |Asserted(v, n)| ==> Asserted(v, n)[i] < Asserted(v, n)[j]
    ensures SumOfPowers(Asserted(v, n)) == v.value64 % Pow2(n)
    ensures Asserted(v, n) != [] <==> v.value64 % Pow2(n) != 0
  {
    hide Passes;
    PositionsBelow(v, [Criterion(Bitmap, "1")], 1, n);
    forall i: nat | i < n
      ensures Passes(v, [Criterion(Bitmap, "1")], Some(ShiftLeft(1, i))) <==> Bit(v.value64, i)
    {
      OneDigitPasses(v, i);
    }
    LowBitsAreRemainder(v.value64, n);
    AssertedSum(v, n);
    SumIsPositive(Asserted(v, n));
  }

  lemma OneDigitPasses(v: PropertyValue, i: nat)
    requires i < 64 && v.IsValidInteger()
    ensures Passes(v, [Criterion(Bitmap, "1")], Some(ShiftLeft(1, i))) <==> Bit(v.value64, i)
  {
    var criteria := [Criterion(Bitmap, "1")];
    var mask := ShiftLeft(1, i);
    var other := ValueFromCriteria(Some(mask), criteria[0].text);
    assert Passes(v, criteria, Some(mask)) <==> Holds(v, criteria[0].key, other);
    SingleBit(v.value64, i);
  }

  lemma AssertedOneMore(v: PropertyValue, n: nat)
    requires n < 64 && v.IsValidInteger()
    ensures Asserted(v, n + 1) == Asserted(v, n) + if Bit(v.value64, n) then [n] else []
  {
    OneDigitPasses(v, n);
    hide Passes, Bit;
  }

  lemma SumOneMore(positions: seq<nat>, i: nat)
    ensures SumOfPowers(positions + [i]) == SumOfPowers(positions) + Pow2(i)
  {
    assert (positions + [i])[..|positions|] == positions;
  }

  lemma SumIsPositive(positions: seq<nat>)
    ensures SumOfPowers(positions) != 0 <==> positions != []
  {
  }

  lemma {:induction false} AssertedSum(v: PropertyValue, n: nat)
    requires n <= 64 && v.IsValidInteger()
    ensures SumOfPowers(Asserted(v, n)) == LowBits(v.value64, n)
    decreases n
  {
    if n == 0 {
      assert Asserted(v, 0) == [];
    } else {
      AssertedSum(v, n - 1);
      AssertedSumStep(v, n - 1);
    }
  }

  lemma AssertedSumStep(v: PropertyValue, n: nat)
    requires n < 64 && v.IsValidInteger()
    requires SumOfPowers(Asserted(v, n)) == LowBits(v.value64, n)
    ensures SumOfPowers(Asserted(v, n + 1)) == LowBits(v.value64, n + 1)
  {
    hide Asserted;
    AssertedOneMore(v, n);
    SumOneMore(Asserted(v, n), n);
    LowBitsOneMore(v.value64, n);
    if Bit(v.value64, n) {
      assert Asserted(v, n + 1) == Asserted(v, n) + [n];
    } else {
      assert Asserted(v, n + 1) == Asserted(v, n);
    }
  }

  /** A value that is no integer asserts nothing. */
  lemma {:induction false} NoIntegerNoDevice(v: PropertyValue, text: string, m: nat, n: nat)
    requires !v.IsValidInteger()
    ensures Positions(v, [Criterion(Bitmap, text)], m, n) == []
  {
    if n > 0 {
      NoIntegerNoDevice(v, text, m, n - 1);
      var criteria := [Criterion(Bitmap, text)];
      assert criteria[0].key == Bitmap;
    }
  }
}
