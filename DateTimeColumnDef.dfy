/** The value formatting of a MySQL DATETIME or TIMESTAMP column: truncating
    a nanosecond count to the column's fractional-second length, rendering a
    timestamp or a packed `YYYYMMDDHHMMSS` integer as text, the dispatch over
    the value's shape, the SQL and JSON wrappers and the binlog type-code
    test. */
module DateTimeColumnDef {
  import opened JavaArith
  import opened DecimalText

  /** A DATETIME or TIMESTAMP column as the formatter sees it: its declared
      type name and its fractional-second length (0 to 6 in MySQL). */
  datatype DateTimeColumn = DateTimeColumn(typeName: string, columnLength: int)

  predicate IsDatetime(col: DateTimeColumn) {
    col.typeName == "datetime"
  }

  /*************************** Fractional seconds ***************************/

  /** The text the padding loop builds: the decimal text of `nanos`,
      right-padded with '0' to nine characters. */
  function PaddedNanosText(nanos: Int32): (padded: string) {
    var text := IntToString(nanos);
    text + Zeros(9 - |text|)
  }

  /** The padded text is decimal, and its value fits in an `int`, so
      `Integer.parseInt` accepts it. */
  lemma PaddedNanosTextFits(nanos: Int32)
    ensures IsDecimal(PaddedNanosText(nanos))
    ensures -0x8000_0000 <= ParseInt(PaddedNanosText(nanos)) < 0x8000_0000
  {
    var text := IntToString(nanos);
    var padded := PaddedNanosText(nanos);
    if |text| >= 9 {
      assert padded == text;
      ParseIntOfIntToString(nanos);
    } else {
      assert |padded| == 9;
      assert Pow10(8) == 100_000_000 && Pow10(9) == 1_000_000_000;
      ParseIntBound(padded);
      if nanos >= 0 {
        ParseDigitsAppendZeros(text, 9 - |text|);
      } else {
        ParseDigitsAppendZeros(text[1..], 9 - |text|);
        assert padded[1..] == text[1..] + Zeros(9 - |text|);
      }
    }
  }

  /** The nanosecond count read back from its own digits as if they were
      the written digits of a nine-digit fraction: 1234 stands for .1234 s,
      that is 123 400 000 ns. */
  function ReadNanosAsDigits(nanos: Int32): (n: Int32) {
    PaddedNanosTextFits(nanos);
    ParseInt(PaddedNanosText(nanos))
  }

  /** A non-negative count of `d <= 9` digits is scaled by 10^(9 - d): the
      loop appends exactly 9 - d zeros. */
  lemma ReadNanosAsDigitsScales(nanos: Int32, d: nat)
    requires 0 <= nanos && 1 <= d <= 9
    requires nanos < Pow10(d) && (d == 1 || Pow10(d - 1) <= nanos)
    ensures ReadNanosAsDigits(nanos) == nanos * Pow10(9 - d)
  {
    DigitsLength(nanos, d);
    ParseDigitsAppendZeros(Digits(nanos), 9 - d);
    ParseDigitsOfDigits(nanos);
  }

  /** For a negative count the minus sign takes one of the nine places: a
      count whose magnitude has `d <= 8` digits is scaled by 10^(8 - d). */
  lemma ReadNanosAsDigitsNegative(nanos: Int32, d: nat)
    requires nanos < 0 && 1 <= d <= 8
    requires -(nanos as int) < Pow10(d) && (d == 1 || Pow10(d - 1) <= -(nanos as int))
    ensures ReadNanosAsDigits(nanos) == nanos * Pow10(8 - d)
  {
    NegativePaddedText(nanos, d);
    NegativeReadBack(nanos, 8 - d);
  }

  /** A negative count whose padded text is '-', its digits and k zeros is
      read back scaled by 10^k. */
  lemma NegativeReadBack(nanos: Int32, k: nat)
    requires nanos < 0
    requires PaddedNanosText(nanos)[0] == '-'
    requires PaddedNanosText(nanos)[1..] == Digits(-(nanos as int)) + Zeros(k)
    ensures ReadNanosAsDigits(nanos) == nanos * Pow10(k)
  {
    var mag: nat := -(nanos as int);
    var p := Pow10(k);
    var padded := PaddedNanosText(nanos);
    assert ParseDigits(padded[1..]) == mag * p by {
      DigitsThenZerosValue(mag, k);
    }
    assert ReadNanosAsDigits(nanos) == -(mag * p) by {
      PaddedNanosTextFits(nanos);
    }
    MulNeg(nanos, p);
  }

  /** The digits of `mag` followed by k zeros read back as mag * 10^k. */
  lemma DigitsThenZerosValue(mag: nat, k: nat)
    ensures AllDigits(Digits(mag) + Zeros(k)) && ParseDigits(Digits(mag) + Zeros(k)) == mag * Pow10(k)
  {
    ParseDigitsAppendZeros(Digits(mag), k);
    ParseDigitsOfDigits(mag);
  }

  lemma NegativePaddedText(nanos: Int32, d: nat)
    requires nanos < 0 && 1 <= d <= 8
    requires -(nanos as int) < Pow10(d) && (d == 1 || Pow10(d - 1) <= -(nanos as int))
    ensures PaddedNanosText(nanos)[0] == '-'
    ensures PaddedNanosText(nanos)[1..] == Digits(-(nanos as int)) + Zeros(8 - d)
  {
    var mag: nat := -(nanos as int);
    var text := IntToString(nanos);
    DigitsLength(mag, d);
    assert text == "-" + Digits(mag) && |text| == d + 1;
    assert PaddedNanosText(nanos) == "-" + (Digits(mag) + Zeros(8 - d));
  }

  /** A count whose text already has nine or more characters is read back
      unchanged. */
  lemma ReadNanosAsDigitsKeepsWide(nanos: Int32)
    requires Pow10(8) <= nanos || nanos <= -(Pow10(7) as int)
    ensures ReadNanosAsDigits(nanos) == nanos
  {
    if nanos >= 0 {
      DigitsAtLeast(nanos, 9);
    } else {
      DigitsAtLeast(-(nanos as int), 8);
    }
    assert PaddedNanosText(nanos) == IntToString(nanos);
    ParseIntOfIntToString(nanos);
  }

  lemma ReadNanosAsDigitsExample()
    ensures ReadNanosAsDigits(1234) == 123_400_000
  {
    ReadNanosAsDigitsScales(1234, 4);
  }

  /** A count in Timestamp's range 0..999 999 999 stays in that range. */
  lemma ReadNanosAsDigitsRange(nanos: Int32)
    requires 0 <= nanos <= 999_999_999
    ensures 0 <= ReadNanosAsDigits(nanos) <= 999_999_999
  {
    DigitsAtMost(nanos, 9);
    ParseDigitsAppendZeros(Digits(nanos), 9 - |Digits(nanos)|);
    ParseDigitsBound(PaddedNanosText(nanos));
    assert Pow10(9) == 1_000_000_000;
  }

  /** The nanosecond count the truncation starts from. */
  function EffectiveNanos(nanos: Int32, convertStringNanosToNanos: bool): (n: Int32) {
    if convertStringNanosToNanos then ReadNanosAsDigits(nanos) else nanos
  }

  /** The fraction kept for a column: microseconds (truncating division by
      1000), then truncating division by 10^(6 - columnLength). */
  function TruncatedNanos(nanos: Int32, columnLength: int, convertStringNanosToNanos: bool): (r: Int32)
    requires 0 <= columnLength <= 6
  {
    Div(Div(EffectiveNanos(nanos, convertStringNanosToNanos), 1000), Pow10(6 - columnLength))
  }

  /** For a count in Timestamp's range the fraction has at most
      `columnLength` digits. */
  lemma TruncatedNanosBounds(nanos: Int32, columnLength: int, convertStringNanosToNanos: bool)
    requires 0 <= nanos <= 999_999_999 && 0 <= columnLength <= 6
    ensures 0 <= TruncatedNanos(nanos, columnLength, convertStringNanosToNanos) < Pow10(columnLength)
  {
    var n := EffectiveNanos(nanos, convertStringNanosToNanos);
    if convertStringNanosToNanos {
      ReadNanosAsDigitsRange(nanos);
    }
    var micros := n / 1000;
    assert micros < Pow10(6) by {
      assert Pow10(6) == 1_000_000;
    }
    Pow10Add(columnLength, 6 - columnLength);
    DivBelow(micros, Pow10(columnLength), Pow10(6 - columnLength));
  }

  /** The examples of the source's comment: 123 456 789 ns keeps 123 at
      length 3 and 123 456 at length 6; 123 456 ns keeps 0 and 123. */
  lemma TruncatedNanosDocExamples()
    ensures TruncatedNanos(123_456_789, 3, false) == 123
    ensures TruncatedNanos(123_456_789, 6, false) == 123_456
    ensures TruncatedNanos(123_456, 3, false) == 0
    ensures TruncatedNanos(123_456, 6, false) == 123
  {
    assert Pow10(3) == 1000 && Pow10(0) == 1;
  }

  /** Truncation, never rounding: the `columnLength` padded digits of the
      fraction are the first `columnLength` digits of the nine-digit
      nanosecond fraction. */
  lemma TruncatedNanosIsDigitPrefix(nanos: Int32, columnLength: int, convertStringNanosToNanos: bool)
    requires 0 <= nanos <= 999_999_999 && 1 <= columnLength <= 6
    ensures 0 <= EffectiveNanos(nanos, convertStringNanosToNanos) < Pow10(9)
    ensures |FormatZeroPadded(EffectiveNanos(nanos, convertStringNanosToNanos), 9)| == 9
    ensures FormatZeroPadded(TruncatedNanos(nanos, columnLength, convertStringNanosToNanos), columnLength)
         == FormatZeroPadded(EffectiveNanos(nanos, convertStringNanosToNanos), 9)[..columnLength]
  {
    var n := EffectiveNanos(nanos, convertStringNanosToNanos);
    if convertStringNanosToNanos {
      ReadNanosAsDigitsRange(nanos);
    }
    assert Pow10(9) == 1_000_000_000;
    MicrosPrefix(n, columnLength);
  }

  /** Truncating to microseconds and then to `columnLength` digits keeps the
      first `columnLength` of the nine padded digits. */
  lemma MicrosPrefix(n: nat, columnLength: int)
    requires n < 1_000_000_000 && 1 <= columnLength <= 6
    ensures |FormatZeroPadded(n, 9)| == 9
    ensures Div(Div(n, 1000), Pow10(6 - columnLength)) == n / 1000 / Pow10(6 - columnLength)
    ensures FormatZeroPadded(n / 1000 / Pow10(6 - columnLength), columnLength) == FormatZeroPadded(n, 9)[..columnLength]
  {
    assert n < Pow10(9) by {
      assert Pow10(9) == 1_000_000_000;
    }
    var p := Pow10(6 - columnLength);
    var micros := n / 1000;
    assert Div(Div(n, 1000), p) == micros / p by {
      assert Div(n, 1000) == micros;
    }
    assert micros / p == n / Pow10(9 - columnLength) by {
      assert Pow10(3) == 1000;
      Pow10Add(3, 6 - columnLength);
      NatDivDiv(n, 1000, p);
    }
    var s := FormatZeroPadded(n, 9);
    assert |s| == 9 && FormatZeroPadded(n / Pow10(9 - columnLength), columnLength) == s[..columnLength] by {
      FormatZeroPaddedPrefix(n, 9, 9 - columnLength);
    }
  }

  /** On the JSON path a positive count is read as the written digits of the
      fraction: the suffix is the first `columnLength` characters of its
      decimal text right-padded with zeros. */
  lemma JsonFractionIsWrittenDigits(nanos: Int32, columnLength: int)
    requires 0 < nanos <= 999_999_999 && 1 <= columnLength <= 6
    ensures FormatZeroPadded(TruncatedNanos(nanos, columnLength, true), columnLength)
         == (IntToString(nanos) + Zeros(9 - |IntToString(nanos)|))[..columnLength]
  {
    TruncatedNanosIsDigitPrefix(nanos, columnLength, true);
    var padded := PaddedNanosText(nanos);
    DigitsAtMost(nanos, 9);
    assert Pow10(9) == 1_000_000_000;
    ParseDigitsAppendZeros(Digits(nanos), 9 - |Digits(nanos)|);
    assert |padded| == 9;
    FormatZeroPaddedOfParse(padded);
  }

  /** `truncateNanosToColumnLength`: the padding loop works on a fresh
      buffer (the per-thread builder is cleared on every use). */
  method TruncateNanosToColumnLength(nanos: Int32, columnLength: int, convertStringNanosToNanos: bool)
    returns (r: Int32)
    requires 0 <= columnLength <= 6
    ensures r == TruncatedNanos(nanos, columnLength, convertStringNanosToNanos)
    ensures !convertStringNanosToNanos && 0 <= nanos ==> r == nanos / 1000 / Pow10(6 - columnLength)
    ensures 0 <= nanos <= 999_999_999 ==> 0 <= r < Pow10(columnLength)
  {
    var n := nanos;
    if convertStringNanosToNanos {
      var strNanos := IntToString(n);
      var realStrNanos: string := [];
      realStrNanos := realStrNanos + strNanos;
      var i := 0;
      while i < 9 - |strNanos|
        invariant 0 <= i && (i == 0 || i <= 9 - |strNanos|)
        invariant realStrNanos == strNanos + Zeros(i)
      {
        realStrNanos := realStrNanos + ['0'];
        i := i + 1;
      }
      assert realStrNanos == PaddedNanosText(nanos);
      PaddedNanosTextFits(nanos);
      n := ParseInt(realStrNanos);
    }
    var micros := Div(n, 1000);
    var divideBy := Pow10(6 - columnLength);
    r := Div(micros, divideBy);
    if 0 <= nanos <= 999_999_999 {
      TruncatedNanosBounds(nanos, columnLength, convertStringNanosToNanos);
    }
  }

  /******************************* Timestamps *******************************/

  /** Timestamp's nanosecond field, always in 0..999 999 999. */
  type Nanos = x: int | 0 <= x <= 999_999_999

  /** A `java.sql.Timestamp`: its `yyyy-MM-dd HH:mm:ss` calendar text (as the
      shared date formatter renders the instant) and its nanoseconds. */
  datatype Timestamp = Timestamp(calendarText: string, nanos: Nanos)

  /** `s` is `base`, a '.', and exactly `len` digits whose value is `fraction`. */
  predicate FractionText(s: string, base: string, len: nat, fraction: int) {
    |s| == |base| + 1 + len && s[..|base|] == base && s[|base|] == '.'
    && AllDigits(s[|base| + 1..]) && ParseDigits(s[|base| + 1..]) == fraction
  }

  /** The text of a timestamp: no fractional part when the nanoseconds are
      zero, otherwise '.' and the truncated fraction under `%0<len>d`. */
  function TimestampText(t: Timestamp, columnLength: int, convertStringNanosToNanos: bool): (s: string)
    requires t.nanos != 0 ==> 1 <= columnLength <= 6
  {
    if t.nanos == 0 then t.calendarText
    else t.calendarText + "."
         + FormatZeroPadded(TruncatedNanos(t.nanos, columnLength, convertStringNanosToNanos), columnLength)
  }

  /** With nonzero nanoseconds the text is the calendar text, '.', and
      exactly `columnLength` digits holding the truncated fraction. */
  lemma TimestampTextShape(t: Timestamp, columnLength: int, convertStringNanosToNanos: bool)
    requires t.nanos != 0 && 1 <= columnLength <= 6
    ensures FractionText(TimestampText(t, columnLength, convertStringNanosToNanos), t.calendarText,
                         columnLength, TruncatedNanos(t.nanos, columnLength, convertStringNanosToNanos))
  {
    var fraction := TruncatedNanos(t.nanos, columnLength, convertStringNanosToNanos);
    TruncatedNanosBounds(t.nanos, columnLength, convertStringNanosToNanos);
    FormatZeroPaddedRoundTrip(fraction, columnLength);
    var s := TimestampText(t, columnLength, convertStringNanosToNanos);
    var base := t.calendarText;
    assert s[|base| + 1..] == FormatZeroPadded(fraction, columnLength);
  }

  /** `timestampToString`: the fraction is computed before the per-thread
      builder is fetched, so the builder starts empty. */
  method TimestampToString(t: Timestamp, columnLength: int, convertStringNanosToNanos: bool)
    returns (s: string)
    requires t.nanos != 0 ==> 1 <= columnLength <= 6
    ensures s == TimestampText(t, columnLength, convertStringNanosToNanos)
    ensures t.nanos == 0 ==> s == t.calendarText
    ensures t.nanos != 0 ==> FractionText(s, t.calendarText, columnLength,
                                          TruncatedNanos(t.nanos, columnLength, convertStringNanosToNanos))
  {
    var nanos := t.nanos;
    if nanos == 0 {
      return t.calendarText;
    }
    var fraction := TruncateNanosToColumnLength(nanos, columnLength, convertStringNanosToNanos);
    var text := FormatZeroPadded(fraction, columnLength);
    var result: string := [];
    result := result + t.calendarText;
    assert result == t.calendarText;
    result := result + ".";
    result := result + text;
    s := result;
    assert s == TimestampText(t, columnLength, convertStringNanosToNanos);
    TimestampTextShape(t, columnLength, convertStringNanosToNanos);
  }

  /************************ Packed YYYYMMDDHHMMSS values ************************/

  datatype DateTimeFields = DateTimeFields(year: int, month: int, day: int, hour: int, minute: int, second: int)

  /** Year 0..9999 and every other field 0..99: the fields a packed value
      below 10^14 can hold. */
  predicate FieldsInRange(f: DateTimeFields) {
    0 <= f.year <= 9999 && 0 <= f.month <= 99 && 0 <= f.day <= 99
    && 0 <= f.hour <= 99 && 0 <= f.minute <= 99 && 0 <= f.second <= 99
  }

  /** The packed decimal `YYYYMMDDHHMMSS` of the fields. */
  function EncodePacked(f: DateTimeFields): (v: int) {
    f.year * 10_000_000_000 + f.month * 100_000_000 + f.day * 1_000_000
    + f.hour * 10_000 + f.minute * 100 + f.second
  }

  /** Each field read off its own decimal position with Java's `/` and `%`. */
  function DecodePacked(v: int): (f: DateTimeFields) {
    DateTimeFields(
      Div(v, 10_000_000_000),
      Rem(Div(v, 100_000_000), 100),
      Rem(Div(v, 1_000_000), 100),
      Rem(Div(v, 10_000), 100),
      Rem(Div(v, 100), 100),
      Rem(v, 100))
  }

  /** `String.format("%04d-%02d-%02d %02d:%02d:%02d", ...)` of the fields. */
  function RenderFields(f: DateTimeFields): (s: string) {
    FormatZeroPadded(f.year, 4) + "-" + FormatZeroPadded(f.month, 2) + "-" + FormatZeroPadded(f.day, 2)
    + " " + FormatZeroPadded(f.hour, 2) + ":" + FormatZeroPadded(f.minute, 2)
    + ":" + FormatZeroPadded(f.second, 2)
  }

  function PackedDateTimeText(v: int): (s: string) {
    RenderFields(DecodePacked(v))
  }

  /** `YYYY-MM-DD HH:MM:SS`: 19 characters, digits where the fields go. */
  predicate DateTimeTextShape(s: string) {
    |s| == 19 && AllDigits(s[0..4]) && s[4] == '-' && AllDigits(s[5..7]) && s[7] == '-'
    && AllDigits(s[8..10]) && s[10] == ' ' && AllDigits(s[11..13]) && s[13] == ':'
    && AllDigits(s[14..16]) && s[16] == ':' && AllDigits(s[17..19])
  }

  /** The fields written in a `YYYY-MM-DD HH:MM:SS` text. */
  function ParseDateTimeText(s: string): (f: DateTimeFields)
    requires DateTimeTextShape(s)
  {
    DateTimeFields(ParseDigits(s[0..4]), ParseDigits(s[5..7]), ParseDigits(s[8..10]),
                   ParseDigits(s[11..13]), ParseDigits(s[14..16]), ParseDigits(s[17..19]))
  }

  /** Where each piece of a `YYYY-MM-DD HH:MM:SS` concatenation lands. */
  lemma DateTimeLayout(y: string, mo: string, d: string, h: string, mi: string, se: string)
    requires |y| == 4 && |mo| == 2 && |d| == 2 && |h| == 2 && |mi| == 2 && |se| == 2
    ensures var s := y + "-" + mo + "-" + d + " " + h + ":" + mi + ":" + se;
      |s| == 19 && s[0..4] == y && s[4] == '-' && s[5..7] == mo && s[7] == '-' && s[8..10] == d
      && s[10] == ' ' && s[11..13] == h && s[13] == ':' && s[14..16] == mi && s[16] == ':'
      && s[17..19] == se
  {
    var date := y + "-" + mo + "-" + d;
    var time := h + ":" + mi + ":" + se;
    assert |date| == 10 && date[0..4] == y && date[4] == '-' && date[5..7] == mo && date[7] == '-'
           && date[8..10] == d;
    assert |time| == 8 && time[0..2] == h && time[2] == ':' && time[3..5] == mi && time[5] == ':'
           && time[6..8] == se;
    var s := y + "-" + mo + "-" + d + " " + h + ":" + mi + ":" + se;
    assert s == date + " " + time;
    assert s[0..10] == date && s[10] == ' ' && s[11..19] == time;
    assert s[0..4] == date[0..4] && s[5..7] == date[5..7] && s[8..10] == date[8..10];
    assert s[11..13] == time[0..2] && s[14..16] == time[3..5] && s[17..19] == time[6..8];
  }

  /** Fields in range render as `YYYY-MM-DD HH:MM:SS` text that reads back
      as the same fields. */
  lemma RenderFieldsRoundTrip(f: DateTimeFields)
    requires FieldsInRange(f)
    ensures DateTimeTextShape(RenderFields(f)) && ParseDateTimeText(RenderFields(f)) == f
  {
    assert Pow10(4) == 10000 && Pow10(2) == 100;
    FormatZeroPaddedRoundTrip(f.year, 4);
    FormatZeroPaddedRoundTrip(f.month, 2);
    FormatZeroPaddedRoundTrip(f.day, 2);
    FormatZeroPaddedRoundTrip(f.hour, 2);
    FormatZeroPaddedRoundTrip(f.minute, 2);
    FormatZeroPaddedRoundTrip(f.second, 2);
    DateTimeLayout(FormatZeroPadded(f.year, 4), FormatZeroPadded(f.month, 2), FormatZeroPadded(f.day, 2),
                   FormatZeroPadded(f.hour, 2), FormatZeroPadded(f.minute, 2), FormatZeroPadded(f.second, 2));
  }

  /** Decoding the packed value of in-range fields gives the fields back. */
  lemma DecodeEncodePacked(f: DateTimeFields)
    requires FieldsInRange(f)
    ensures DecodePacked(EncodePacked(f)) == f
  {
    var v := EncodePacked(f);
    var q4 := f.year * 100 + f.month;
    var q3 := q4 * 100 + f.day;
    var q2 := q3 * 100 + f.hour;
    var q1 := q2 * 100 + f.minute;
    assert v == 100 * q1 + f.second;
    DivUnique(v, 100, q1, f.second);
    DivUnique(v, 10_000, q2, f.minute * 100 + f.second);
    DivUnique(v, 1_000_000, q3, (f.hour * 100 + f.minute) * 100 + f.second);
    DivUnique(v, 100_000_000, q4, ((f.day * 100 + f.hour) * 100 + f.minute) * 100 + f.second);
    DivUnique(v, 10_000_000_000, f.year, (((f.month * 100 + f.day) * 100 + f.hour) * 100 + f.minute) * 100 + f.second);
    DivUnique(q1, 100, q2, f.minute);
    DivUnique(q2, 100, q3, f.hour);
    DivUnique(q3, 100, q4, f.day);
    DivUnique(q4, 100, f.year, f.month);
  }

  /** Every packed value below 10^14 is the encoding of the in-range fields
      it decodes to. */
  lemma EncodeDecodePacked(v: int)
    requires 0 <= v < 100_000_000_000_000
    ensures FieldsInRange(DecodePacked(v)) && EncodePacked(DecodePacked(v)) == v
  {
    var q1 := v / 100;
    var q2 := q1 / 100;
    var q3 := q2 / 100;
    var q4 := q3 / 100;
    var q5 := q4 / 100;
    NatDivDiv(v, 100, 100);
    NatDivDiv(v, 10_000, 100);
    NatDivDiv(v, 1_000_000, 100);
    NatDivDiv(v, 100_000_000, 100);
    assert v == 100 * q1 + v % 100;
    assert q1 == 100 * q2 + q1 % 100;
    assert q2 == 100 * q3 + q2 % 100;
    assert q3 == 100 * q4 + q3 % 100;
    assert q4 == 100 * q5 + q4 % 100;
  }

  /** `formatLong`: peels off second, minute, hour, day and month with
      `% 100` and `/= 100`; what is left over 100 is the year. Every field
      fits the `int` it is cast to. */
  method FormatLong(value: Int64) returns (s: string)
    ensures s == PackedDateTimeText(value)
    ensures 0 <= value < 100_000_000_000_000 ==>
              DateTimeTextShape(s) && EncodePacked(ParseDateTimeText(s)) == value
  {
    var v: int := value;
    var second: Int32 := Rem(v, 100);
    v := Div(v, 100);
    var minute: Int32 := Rem(v, 100);
    v := Div(v, 100);
    var hour: Int32 := Rem(v, 100);
    v := Div(v, 100);
    var day: Int32 := Rem(v, 100);
    v := Div(v, 100);
    var month: Int32 := Rem(v, 100);
    DivDiv(value, 100_000_000, 100);
    var year: Int32 := Div(v, 100);
    s := FormatZeroPadded(year, 4) + "-" + FormatZeroPadded(month, 2) + "-" + FormatZeroPadded(day, 2)
         + " " + FormatZeroPadded(hour, 2) + ":" + FormatZeroPadded(minute, 2)
         + ":" + FormatZeroPadded(second, 2);
    DivDiv(value, 100, 100);
    DivDiv(value, 10_000, 100);
    DivDiv(value, 1_000_000, 100);
    assert DecodePacked(value) == DateTimeFields(year, month, day, hour, minute, second);
    if 0 <= value < 100_000_000_000_000 {
      EncodeDecodePacked(value);
      RenderFieldsRoundTrip(DecodePacked(value));
    }
  }

  lemma PackedDateTimeTextExample()
    ensures PackedDateTimeText(20230115123045) == "2023-01-15 12:30:45"
  {
    var f := DateTimeFields(2023, 1, 15, 12, 30, 45);
    assert DecodePacked(20230115123045) == f by {
      assert EncodePacked(f) == 20230115123045;
      DecodeEncodePacked(f);
    }
    assert RenderFields(f) == "2023-01-15 12:30:45" by {
      ExampleFieldTexts();
      assert RenderFields(f) == "2023" + "-" + "01" + "-" + "15" + " " + "12" + ":" + "30" + ":" + "45";
    }
  }

  lemma ExampleFieldTexts()
    ensures FormatZeroPadded(2023, 4) == "2023" && FormatZeroPadded(1, 2) == "01"
    ensures FormatZeroPadded(15, 2) == "15" && FormatZeroPadded(12, 2) == "12"
    ensures FormatZeroPadded(30, 2) == "30" && FormatZeroPadded(45, 2) == "45"
  {
    assert Digits(2023) == "2023" by {
      assert Digits(2) == "2" && Digits(20) == "20" && Digits(202) == "202";
    }
    assert Digits(1) == "1" && Zeros(1) == "0";
  }

  /***************************** Binlog type codes *****************************/

  /** The MySQL column type codes of the replication protocol. */
  const TYPE_TIMESTAMP: int := 7
  const TYPE_DATETIME: int := 12
  const TYPE_TIMESTAMP2: int := 17
  const TYPE_DATETIME2: int := 18

  /** `matchesMysqlType`: a "datetime" column accepts the old and new
      DATETIME codes, every other column the old and new TIMESTAMP codes. */
  function MatchesMysqlType(col: DateTimeColumn, code: int): (r: bool)
    ensures r ==> code in {TYPE_DATETIME, TYPE_DATETIME2, TYPE_TIMESTAMP, TYPE_TIMESTAMP2}
    ensures IsDatetime(col) ==> (r <==> code == TYPE_DATETIME || code == TYPE_DATETIME2)
    ensures !IsDatetime(col) ==> (r <==> code == TYPE_TIMESTAMP || code == TYPE_TIMESTAMP2)
  {
    if IsDatetime(col) then code == TYPE_DATETIME || code == TYPE_DATETIME2
    else code == TYPE_TIMESTAMP || code == TYPE_TIMESTAMP2
  }

  /** Each of the four codes is accepted by exactly one of the two kinds of
      column, and no other code by either. */
  lemma MatchesMysqlTypePartition(code: int, datetimeCol: DateTimeColumn, otherCol: DateTimeColumn)
    requires IsDatetime(datetimeCol) && !IsDatetime(otherCol)
    ensures (MatchesMysqlType(datetimeCol, code) || MatchesMysqlType(otherCol, code))
            <==> code in {TYPE_DATETIME, TYPE_DATETIME2, TYPE_TIMESTAMP, TYPE_TIMESTAMP2}
    ensures !(MatchesMysqlType(datetimeCol, code) && MatchesMysqlType(otherCol, code))
  {
  }

  /*************************** Dispatch and wrapping ***************************/

  /** The shapes of value the binlog layer hands over. A Timestamp is also a
      `java.util.Date`; `DateVal` is any other Date. */
  datatype Value =
    | LongVal(long: Int64)
    | TimestampVal(ts: Timestamp)
    | DateVal(calendarText: string)
    | Other

  /** The column length a value needs: a fraction is printed only for a
      timestamp with nonzero nanoseconds, and `%0<len>d` needs len >= 1. */
  predicate CanFormat(col: DateTimeColumn, v: Value) {
    v.TimestampVal? && v.ts.nanos != 0 ==> 1 <= col.columnLength <= 6
  }

  /** `formatValue`: a Long only on a "datetime" column, then a Timestamp,
      then any Date; anything else gives the empty string. */
  function FormatValue(col: DateTimeColumn, v: Value, convertStringNanosToNanos: bool): (r: string)
    requires CanFormat(col, v)
    ensures v.Other? ==> r == ""
    ensures v.LongVal? && !IsDatetime(col) ==> r == ""
    ensures v.LongVal? && IsDatetime(col) ==> r == PackedDateTimeText(v.long)
    ensures v.LongVal? && IsDatetime(col) && 0 <= v.long < 100_000_000_000_000 ==>
              DateTimeTextShape(r) && EncodePacked(ParseDateTimeText(r)) == v.long
    ensures v.DateVal? ==> r == v.calendarText
    ensures v.TimestampVal? && v.ts.nanos == 0 ==> r == v.ts.calendarText
    ensures v.TimestampVal? && v.ts.nanos != 0 ==>
              FractionText(r, v.ts.calendarText, col.columnLength,
                           TruncatedNanos(v.ts.nanos, col.columnLength, convertStringNanosToNanos))
  {
    match v
    case LongVal(n) =>
      if IsDatetime(col) then
        (if 0 <= n < 100_000_000_000_000 then
           EncodeDecodePacked(n);
           RenderFieldsRoundTrip(DecodePacked(n));
           PackedDateTimeText(n)
         else PackedDateTimeText(n))
      else ""
    case TimestampVal(t) =>
      if t.nanos != 0 then
        TimestampTextShape(t, col.columnLength, convertStringNanosToNanos);
        TimestampText(t, col.columnLength, convertStringNanosToNanos)
      else TimestampText(t, col.columnLength, convertStringNanosToNanos)
    case DateVal(text) => text
    case Other => ""
  }

  /** `toSQL`: the SQL-path text (no digit re-reading) in single quotes. */
  function ToSQL(col: DateTimeColumn, v: Value): (r: string)
    requires CanFormat(col, v)
    ensures |r| >= 2 && r[0] == '\'' && r[|r| - 1] == '\''
    ensures r[1..|r| - 1] == FormatValue(col, v, false)
  {
    "'" + FormatValue(col, v, false) + "'"
  }

  /** `asJSON`: the JSON-path text, with digit re-reading. It is the SQL
      literal without its quotes except for a timestamp whose nonzero
      nanosecond count has fewer than nine digits. */
  function AsJSON(col: DateTimeColumn, v: Value): (r: string)
    requires CanFormat(col, v)
    ensures !(v.TimestampVal? && 0 < v.ts.nanos < 100_000_000) ==>
              r == ToSQL(col, v)[1..|ToSQL(col, v)| - 1]
    ensures v.TimestampVal? && v.ts.nanos != 0 ==>
              FractionText(r, v.ts.calendarText, col.columnLength,
                           TruncatedNanos(v.ts.nanos, col.columnLength, true))
  {
    if v.TimestampVal? && v.ts.nanos >= 100_000_000 then
      assert Pow10(8) == 100_000_000;
      ReadNanosAsDigitsKeepsWide(v.ts.nanos);
      FormatValue(col, v, true)
    else FormatValue(col, v, true)
  }

  /** In the case `AsJSON` leaves out the two texts really differ: the SQL
      fraction starts with '0', the JSON fraction with the leading digit of
      the nanosecond count. */
  lemma AsJsonDiffersFromSql(col: DateTimeColumn, v: Value)
    requires CanFormat(col, v) && v.TimestampVal? && 0 < v.ts.nanos < 100_000_000
    ensures AsJSON(col, v) != ToSQL(col, v)[1..|ToSQL(col, v)| - 1]
  {
    var t, len := v.ts, col.columnLength;
    var b := |t.calendarText|;
    var sql, json := FormatValue(col, v, false), AsJSON(col, v);
    assert sql == ToSQL(col, v)[1..|ToSQL(col, v)| - 1];
    assert sql[b + 1] == '0' by {
      TruncatedNanosIsDigitPrefix(t.nanos, len, false);
      NinePaddedLeadingZero(t.nanos);
      assert sql[b + 1..] == FormatZeroPadded(TruncatedNanos(t.nanos, len, false), len);
    }
    assert json[b + 1] != '0' by {
      JsonFractionIsWrittenDigits(t.nanos, len);
      DigitsLeadingNonZero(t.nanos);
      assert json[b + 1..] == FormatZeroPadded(TruncatedNanos(t.nanos, len, true), len);
    }
  }

  /** A timestamp with 1234 ns: the SQL literal keeps one microsecond, the
      JSON text reads .1234 seconds. */
  lemma SqlAndJsonDivergeExample(base: string)
    ensures ToSQL(DateTimeColumn("datetime", 6), TimestampVal(Timestamp(base, 1234)))
            == "'" + base + ".000001'"
    ensures AsJSON(DateTimeColumn("datetime", 6), TimestampVal(Timestamp(base, 1234)))
            == base + ".123400"
  {
    SqlExampleText(base);
    JsonExampleText(base);
  }

  lemma SqlExampleText(base: string)
    ensures ToSQL(DateTimeColumn("datetime", 6), TimestampVal(Timestamp(base, 1234)))
            == "'" + base + ".000001'"
  {
    var col, ts := DateTimeColumn("datetime", 6), Timestamp(base, 1234);
    var text := TimestampText(ts, 6, false);
    assert text == base + "." + "000001" by {
      SqlExampleFraction();
    }
    assert FormatValue(col, TimestampVal(ts), false) == text;
    assert "'" + text + "'" == "'" + base + ".000001'";
  }

  lemma JsonExampleText(base: string)
    ensures AsJSON(DateTimeColumn("datetime", 6), TimestampVal(Timestamp(base, 1234)))
            == base + ".123400"
  {
    var col, ts := DateTimeColumn("datetime", 6), Timestamp(base, 1234);
    var text := TimestampText(ts, 6, true);
    assert text == base + "." + "123400" by {
      JsonExampleFraction();
    }
    assert text == base + ".123400";
    assert AsJSON(col, TimestampVal(ts)) == FormatValue(col, TimestampVal(ts), true) == text;
  }

  lemma SqlExampleFraction()
    ensures FormatZeroPadded(TruncatedNanos(1234, 6, false), 6) == "000001"
  {
    assert Pow10(0) == 1;
    assert TruncatedNanos(1234, 6, false) == 1;
    assert Digits(1) == "1" && Zeros(5) == "00000";
  }

  lemma JsonExampleFraction()
    ensures FormatZeroPadded(TruncatedNanos(1234, 6, true), 6) == "123400"
  {
    assert IntToString(1234) == "1234" by {
      assert Digits(1) == "1" && Digits(12) == "12" && Digits(123) == "123";
    }
    JsonFractionIsWrittenDigits(1234, 6);
    assert (IntToString(1234) + Zeros(5))[..6] == "123400";
  }
}
