# DateTimeColumnDef: value formatting of MySQL DATETIME and TIMESTAMP columns

Maxwell's `DateTimeColumnDef` turns the value of a DATETIME or TIMESTAMP column, as
the binlog reader hands it over, into text. That text is either a quoted SQL literal
(`toSQL`) or a bare JSON string (`asJSON`). The value can take three shapes:

- a packed `YYYYMMDDHHMMSS` long;
- a `java.sql.Timestamp`, which holds calendar text and a nanosecond count;
- another `java.util.Date`.

A timestamp with nonzero nanoseconds gets a fractional part. That part is the nanosecond
count truncated, never rounded, to the column's fractional-second length (0 to 6 digits),
and written zero-padded to exactly that many digits. On the JSON path the nanosecond count
is first re-read as the written digits of a nine-digit fraction. For example, 1234 stands
for `.1234` seconds, that is 123 400 000 ns.

The project has three modules:

- `JavaArith`: Java's `int` and `long` ranges, Java's truncating `/` and `%` (Dafny's are
  Euclidean), and the exact integer powers of ten that replace `Math.pow`.
- `DecimalText`: models of the library calls that the formatter relies on, with the round
  trips between them. These are `Integer.toString`, `Integer.parseInt` and the `%0wd`
  conversion of `String.format`.
- `DateTimeColumnDef`: the column itself.
  - `truncateNanosToColumnLength` is a method whose padding loop is proved against the
    function `TruncatedNanos`.
  - `timestampToString` is a method proved against `TimestampText`.
  - `formatLong` is a method proved against the decode-and-render function
    `PackedDateTimeText`.
  - `matchesMysqlType`, `formatValue`, `toSQL` and `asJSON` are functions.

The column is a datatype holding the two things the formatter reads: the declared type
name and `columnLength`. The source never updates either after construction.

## Model

| member | source | states |
|---|---|---|
| JavaArith.Div | src/main/java/com/zendesk/maxwell/schema/columndef/DateTimeColumnDef.java:65-70 | Java's `/` by a positive divisor rounds toward zero: the quotient lies between 0 and the dividend, on the dividend's side |
| JavaArith.Rem | src/main/java/com/zendesk/maxwell/schema/columndef/DateTimeColumnDef.java:117-121 | Java's `%` by a positive divisor takes the sign of the dividend and is smaller than the divisor in magnitude |
| JavaArith.DivDiv | src/main/java/com/zendesk/maxwell/schema/columndef/DateTimeColumnDef.java:117-122 | repeated truncating division by b, then c, equals one division by b * c (so `value /= 100` four times divides by 10^8) |
| JavaArith.Pow10 | src/main/java/com/zendesk/maxwell/schema/columndef/DateTimeColumnDef.java:68 | the divisor is at least 1 (at least 10 for a positive exponent), so the division never divides by zero |
| JavaArith.Pow10Add | src/main/java/com/zendesk/maxwell/schema/columndef/DateTimeColumnDef.java:68 | 10^(m+n) = 10^m * 10^n |
| DecimalText.IntToString | src/main/java/com/zendesk/maxwell/schema/columndef/DateTimeColumnDef.java:52 | `Integer.toString` yields decimal text: the digits of n, preceded by '-' exactly when n is negative |
| DecimalText.ParseIntOfIntToString | src/main/java/com/zendesk/maxwell/schema/columndef/DateTimeColumnDef.java:52-62 | `Integer.parseInt` of `Integer.toString(n)` is n, for every n |
| DecimalText.ParseDigitsOfDigits | src/main/java/com/zendesk/maxwell/schema/columndef/DateTimeColumnDef.java:52-62 | reading back the digits of n gives n |
| DecimalText.ParseDigitsAppendZeros | src/main/java/com/zendesk/maxwell/schema/columndef/DateTimeColumnDef.java:57-62 | appending k '0' characters to a digit string multiplies its value by 10^k |
| DecimalText.ParseDigitsLeadingZeros | src/main/java/com/zendesk/maxwell/schema/columndef/DateTimeColumnDef.java:84 | left padding with zeros does not change the value of a digit string |
| DecimalText.Zeros | src/main/java/com/zendesk/maxwell/schema/columndef/DateTimeColumnDef.java:57-60 | k copies of '0' (none if k <= 0): the characters the padding loop appends |
| DecimalText.ParseDigitsBound | src/main/java/com/zendesk/maxwell/schema/columndef/DateTimeColumnDef.java:62 | a digit string of length n has a value below 10^n |
| DecimalText.DigitsLength | src/main/java/com/zendesk/maxwell/schema/columndef/DateTimeColumnDef.java:57 | a number in [10^(d-1), 10^d) has exactly d digits, so the loop runs 9 - d times |
| DecimalText.ParseInt | src/main/java/com/zendesk/maxwell/schema/columndef/DateTimeColumnDef.java:62 | `Integer.parseInt` of text made of an optional '-' and then digits: a leading '-' gives a value <= 0, and no sign gives a value >= 0 |
| DecimalText.ParseIntBound | src/main/java/com/zendesk/maxwell/schema/columndef/DateTimeColumnDef.java:62 | the value `Integer.parseInt` reads from decimal text of length n lies strictly between -10^(n-1) and 10^n |
| DecimalText.FormatZeroPaddedMeaning | src/main/java/com/zendesk/maxwell/schema/columndef/DateTimeColumnDef.java:84 | `%0wd` (also the widths of line 124) for every x: a non-negative x gives digits reading back as x, max(w, digits of x) long; a negative x gives '-' and then digits reading back as -x, and the '-' counts toward the width |
| DecimalText.FormatZeroPaddedNegativeExample | src/main/java/com/zendesk/maxwell/schema/columndef/DateTimeColumnDef.java:124 | `%04d` of -5 is "-005": the sign goes first and the zeros come after it |
| DecimalText.FormatZeroPaddedRoundTrip | src/main/java/com/zendesk/maxwell/schema/columndef/DateTimeColumnDef.java:84 | `%0wd` of 0 <= x < 10^w is exactly w digits, and they read back as x |
| DecimalText.FormatZeroPaddedStep | src/main/java/com/zendesk/maxwell/schema/columndef/DateTimeColumnDef.java:84 | the w padded digits of x are the w-1 padded digits of x / 10 followed by the units digit |
| DecimalText.FormatZeroPaddedPrefix | src/main/java/com/zendesk/maxwell/schema/columndef/DateTimeColumnDef.java:65-70 | dividing by 10^k keeps exactly the first w - k of the w padded digits: truncation, not rounding |
| DecimalText.FormatZeroPaddedOfParse | src/main/java/com/zendesk/maxwell/schema/columndef/DateTimeColumnDef.java:84 | every digit string of length w is the `%0wd` text of its own value (the other direction of the round trip) |
| DateTimeColumnDef.MatchesMysqlType | src/main/java/com/zendesk/maxwell/schema/columndef/DateTimeColumnDef.java:90-99 | on a "datetime" column, true exactly for TYPE_DATETIME and TYPE_DATETIME2; on any other column, exactly for TYPE_TIMESTAMP and TYPE_TIMESTAMP2; never for another code |
| DateTimeColumnDef.MatchesMysqlTypePartition | src/main/java/com/zendesk/maxwell/schema/columndef/DateTimeColumnDef.java:90-99 | the two kinds of column together accept exactly the four codes, and no code is accepted by both |
| DateTimeColumnDef.PaddedNanosTextFits | src/main/java/com/zendesk/maxwell/schema/columndef/DateTimeColumnDef.java:52-62 | the padded text is always valid input to `Integer.parseInt`, and its value fits an `int`, for every `int` nanos (negative ones too) |
| DateTimeColumnDef.ReadNanosAsDigitsScales | src/main/java/com/zendesk/maxwell/schema/columndef/DateTimeColumnDef.java:49-62 | a non-negative count with d <= 9 digits becomes count * 10^(9 - d) |
| DateTimeColumnDef.ReadNanosAsDigitsNegative | src/main/java/com/zendesk/maxwell/schema/columndef/DateTimeColumnDef.java:52-62 | for a negative count the '-' takes one of the nine places: a magnitude of d <= 8 digits is scaled by 10^(8 - d) |
| DateTimeColumnDef.ReadNanosAsDigitsKeepsWide | src/main/java/com/zendesk/maxwell/schema/columndef/DateTimeColumnDef.java:57-62 | a count whose text already has nine or more characters is left unchanged (the loop does not run) |
| DateTimeColumnDef.ReadNanosAsDigitsExample | src/main/java/com/zendesk/maxwell/schema/columndef/DateTimeColumnDef.java:49-50 | 1234 is re-read as 123 400 000 |
| DateTimeColumnDef.ReadNanosAsDigitsRange | src/main/java/com/zendesk/maxwell/schema/columndef/DateTimeColumnDef.java:49-62 | re-reading keeps a count in 0..999 999 999 inside that range |
| DateTimeColumnDef.TruncatedNanosBounds | src/main/java/com/zendesk/maxwell/schema/columndef/DateTimeColumnDef.java:65-70 | for 0 <= nanos <= 999 999 999 and 0 <= columnLength <= 6, with or without re-reading, 0 <= result < 10^columnLength |
| DateTimeColumnDef.TruncatedNanosDocExamples | src/main/java/com/zendesk/maxwell/schema/columndef/DateTimeColumnDef.java:41-47 | 123 456 789 gives 123 at length 3 and 123 456 at length 6; 123 456 gives 0 at length 3 and 123 at length 6 |
| DateTimeColumnDef.MicrosPrefix | src/main/java/com/zendesk/maxwell/schema/columndef/DateTimeColumnDef.java:65-70 | for a non-negative count, Java's two divisions agree with exact division, and the result's `columnLength` padded digits are the first `columnLength` of the count's nine padded digits |
| DateTimeColumnDef.TruncatedNanosIsDigitPrefix | src/main/java/com/zendesk/maxwell/schema/columndef/DateTimeColumnDef.java:65-70 | the printed fraction is the first `columnLength` digits of the nine-digit nanosecond fraction actually used |
| DateTimeColumnDef.JsonFractionIsWrittenDigits | src/main/java/com/zendesk/maxwell/schema/columndef/DateTimeColumnDef.java:49-70 | with re-reading, the printed fraction is the first `columnLength` characters of the count's decimal text, right-padded with zeros |
| DateTimeColumnDef.TruncateNanosToColumnLength | src/main/java/com/zendesk/maxwell/schema/columndef/DateTimeColumnDef.java:48-71 | the loop-built result equals `TruncatedNanos`; without re-reading, a non-negative count gives (nanos / 1000) / 10^(6 - columnLength); a count in range gives 0 <= r < 10^columnLength |
| DateTimeColumnDef.TimestampTextShape | src/main/java/com/zendesk/maxwell/schema/columndef/DateTimeColumnDef.java:79-86 | with nonzero nanos the text is the calendar text, '.', and exactly `columnLength` digits whose value is the truncated fraction |
| DateTimeColumnDef.TimestampToString | src/main/java/com/zendesk/maxwell/schema/columndef/DateTimeColumnDef.java:73-87 | zero nanos give exactly the calendar text with no '.', whatever the column length; otherwise the calendar text, '.', and `columnLength` digits holding the truncated fraction |
| DateTimeColumnDef.DateTimeLayout | src/main/java/com/zendesk/maxwell/schema/columndef/DateTimeColumnDef.java:124 | where each field and separator lands in the 19-character `YYYY-MM-DD HH:MM:SS` text |
| DateTimeColumnDef.RenderFieldsRoundTrip | src/main/java/com/zendesk/maxwell/schema/columndef/DateTimeColumnDef.java:124 | in-range fields render as `YYYY-MM-DD HH:MM:SS` text (year four digits, the rest two each) that parses back as the same fields |
| DateTimeColumnDef.DecodeEncodePacked | src/main/java/com/zendesk/maxwell/schema/columndef/DateTimeColumnDef.java:116-122 | decoding year*10^10 + month*10^8 + day*10^6 + hour*10^4 + minute*10^2 + second gives back the six fields (year 0..9999, others 0..99) |
| DateTimeColumnDef.EncodeDecodePacked | src/main/java/com/zendesk/maxwell/schema/columndef/DateTimeColumnDef.java:116-122 | every packed value in 0..10^14-1 decodes to in-range fields whose encoding is that value |
| DateTimeColumnDef.FormatLong | src/main/java/com/zendesk/maxwell/schema/columndef/DateTimeColumnDef.java:116-125 | the step-by-step `% 100` / `/= 100` result equals the positional decode of every `long` (negative ones too), with every cast to `int` lossless; for 0 <= value < 10^14 the text has the `YYYY-MM-DD HH:MM:SS` shape and encodes back to the value |
| DateTimeColumnDef.PackedDateTimeTextExample | src/main/java/com/zendesk/maxwell/schema/columndef/DateTimeColumnDef.java:116-125 | 20230115123045 prints as "2023-01-15 12:30:45" |
| DateTimeColumnDef.FormatValue | src/main/java/com/zendesk/maxwell/schema/columndef/DateTimeColumnDef.java:101-114 | a long goes to `formatLong` only on a "datetime" column and otherwise gives ""; a timestamp gives its calendar text, or that text with the fraction suffix; any other date gives its calendar text; anything else gives "" |
| DateTimeColumnDef.ToSQL | src/main/java/com/zendesk/maxwell/schema/columndef/DateTimeColumnDef.java:128-131 | the text runs from one single quote to another, and between them is the value formatted without re-reading |
| DateTimeColumnDef.AsJSON | src/main/java/com/zendesk/maxwell/schema/columndef/DateTimeColumnDef.java:134-137 | equals the SQL literal without its quotes whenever the value is not a timestamp or its nanos are zero or have nine digits; a fraction suffix holds the nanos truncated after re-reading |
| DateTimeColumnDef.AsJsonDiffersFromSql | src/main/java/com/zendesk/maxwell/schema/columndef/DateTimeColumnDef.java:128-137 | for a timestamp whose nonzero nanos have fewer than nine digits, the JSON text differs from the SQL literal without its quotes: the SQL fraction starts with '0', the JSON fraction does not |
| DecimalText.DigitsLeadingNonZero | src/main/java/com/zendesk/maxwell/schema/columndef/DateTimeColumnDef.java:52 | the decimal text of a positive number does not start with '0' |
| DecimalText.NinePaddedLeadingZero | src/main/java/com/zendesk/maxwell/schema/columndef/DateTimeColumnDef.java:65-70 | a count below 10^8, written as nine padded digits, starts with '0' |
| DateTimeColumnDef.SqlAndJsonDivergeExample | src/main/java/com/zendesk/maxwell/schema/columndef/DateTimeColumnDef.java:128-137 | a 1234 ns timestamp on a length-6 column is `'<base>.000001'` in SQL and `<base>.123400` in JSON |

## Left out

- Calendar text: `SimpleDateFormat("yyyy-MM-dd HH:mm:ss")` and its time-zone state are not modelled. A timestamp value and a plain date value carry the text the formatter would produce. Only the fraction suffix is built and proved.
- Concurrency: the `synchronized` block and the per-thread `StringBuilder` are not modelled. The builder is cleared on every `get()`, so each method builds its text in a fresh local sequence. As a result, repeated calls with the same inputs give the same text.
- `Math.pow(10, 6 - columnLength)` is a `double` cast to `int`. The model uses the exact integer power of ten, which equals that cast for exponents 0 to 6.
- TruncateNanosToColumnLength: requires 0 <= columnLength <= 6. A larger length makes the Java divisor 0, a negative one makes it at least 10^7, and a null length throws. These cases are configuration errors, not formatting cases.
- TimestampToString: requires 1 <= columnLength when the nanos are nonzero. With length 0 the format string becomes "%00d", which `java.util.Formatter` rejects. The same requirement is carried by `CanFormat` for `FormatValue`, `ToSQL` and `AsJSON`.
- Locale: `String.format` at lines 84 and 124 is called without a `Locale`, so `java.util.Formatter` writes `%d` digits relative to the default locale's zero digit. The model writes ASCII '0'..'9', that is, it assumes a default locale whose digits are ASCII. Under another locale the Java code could emit non-ASCII digits, even inside a `toSQL` literal. `Integer.toString` and `Integer.parseInt` at lines 52 and 62 do not depend on the locale.
- The `ColumnDef` superclass (name, position, constructor plumbing) and `getColumnLength` are not modelled. Only the type name and `columnLength` matter to the formatter.
- The four `MySQLConstants` type codes are external. The model uses MySQL's protocol values (7, 12, 17, 18); only their distinctness is used.
- Object-typed dispatch: Java's `instanceof` tests over `Object` are modelled as a closed datatype with four cases. A `Timestamp` is tested before `Date`, so `DateVal` stands for every other `Date`.

Notes on the code:

- The type test is the string comparison `getType().equals("datetime")`, not a two-valued logical kind. Every other type name behaves like TIMESTAMP. A packed long on such a column formats as "".
- `truncateNanosToColumnLength` right-pads the digits, so 1234 becomes 123 400 000 ns, that is `.1234`, as the comment at DateTimeColumnDef.java:49-50 says.
- The code does not check that nanos lie in 0..999 999 999 or that columnLength lies in 0..6. The Java range of `int` is modelled for nanos, including negative counts on the re-reading path.
