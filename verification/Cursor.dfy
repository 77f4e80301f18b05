// The opaque cursor of a page: the UTC time and the row id of its last event, as compact JSON in
// unpadded base64url.
module Cursor {
  import opened Events
  import opened Decimal
  import opened Base64

  // An aware datetime in UTC, by its fields.
  datatype DateTime = DateTime(year: nat, month: nat, day: nat, hour: nat, minute: nat, second: nat, micro: nat)

  predicate Leap(year: nat) {
    year % 4 == 0 && (year % 100 != 0 || year % 400 == 0)
  }

  function DaysIn(year: nat, month: nat): nat {
    if month == 2 then (if Leap(year) then 29 else 28)
    else if month in {4, 6, 9, 11} then 30 else 31
  }

  predicate ValidTime(t: DateTime) {
    && 1 <= t.year <= 9999 && 1 <= t.month <= 12 && 1 <= t.day <= DaysIn(t.year, t.month)
    && t.hour < 24 && t.minute < 60 && t.second < 60 && t.micro < 1_000_000
  }

  /** The times there are: those of the Gregorian calendar from year 1 to 9999, with its lengths of the months and a
      29th of February in the years divisible by 400 and in those divisible by 4 but not by 100. */
  lemma CalendarMeaning(t: DateTime)
    ensures var leap := t.year % 400 == 0 || (t.year % 4 == 0 && t.year % 100 != 0);
      ValidTime(t) <==>
      && 0 < t.year < 10_000 && 0 < t.month < 13 && 0 < t.day
      && t.day <= [31, if leap then 29 else 28, 31, 30, 31, 30, 31, 31, 30, 31, 30, 31][t.month - 1]
      && t.hour <= 23 && t.minute <= 59 && t.second <= 59 && t.micro <= 999_999
  {
    if t.year % 400 == 0 { FourHundred(t.year); }
  }

  lemma FourHundred(year: nat)
    requires year % 400 == 0
    ensures year % 4 == 0 && year % 100 == 0
  {
    var k := year / 400;
    assert year == (k * 100) * 4 == (k * 4) * 100;
  }

  // ---- isoformat and fromisoformat ----------------------------------------------------------

  function DateText(y: nat, m: nat, d: nat): (s: string)
    ensures |s| == 10
  {
    Padded(y, 4) + "-" + (Padded(m, 2) + "-" + Padded(d, 2))
  }

  function ClockText(h: nat, m: nat, s: nat): (r: string)
    ensures |r| == 8
  {
    Padded(h, 2) + ":" + (Padded(m, 2) + ":" + Padded(s, 2))
  }

  function FractionText(micro: nat): string {
    if micro == 0 then [] else "." + Padded(micro, 6)
  }

  function Iso(t: DateTime): string {
    DateText(t.year, t.month, t.day) + "T"
      + (ClockText(t.hour, t.minute, t.second) + (FractionText(t.micro) + "+00:00"))
  }

  // Three groups of digits, the last two of width 2, around a separator.
  function Triple(s: string, first: nat, separator: char): Option<(nat, nat, nat)> {
    if |s| == first + 6 && s[first] == separator && s[first + 3] == separator
      && AllDigits(s[..first]) && AllDigits(s[first + 1..first + 3]) && AllDigits(s[first + 4..])
    then Some((Number(s[..first]), Number(s[first + 1..first + 3]), Number(s[first + 4..]))) else None
  }

  function Fraction(s: string): Option<nat> {
    if s == [] then Some(0)
    else if |s| == 7 && s[0] == '.' && AllDigits(s[1..]) then Some(Number(s[1..])) else None
  }

  function FromIso(s: string): (r: Option<DateTime>)
    ensures r.Some? ==> ValidTime(r.value)
  {
    if |s| < 25 || s[10] != 'T' || s[|s| - 6..] != "+00:00" then None else
      var date, clock, fraction := Triple(s[..10], 4, '-'), Triple(s[11..19], 2, ':'), Fraction(s[19..|s| - 6]);
      if date.None? || clock.None? || fraction.None? then None else
        var t := DateTime(date.value.0, date.value.1, date.value.2,
                          clock.value.0, clock.value.1, clock.value.2, fraction.value);
        if ValidTime(t) then Some(t) else None
  }

  lemma TripleRoundTrip(a: nat, b: nat, c: nat, first: nat, separator: char)
    requires a < Pow10(first) && b < 100 && c < 100
    ensures Triple(Padded(a, first) + [separator] + (Padded(b, 2) + [separator] + Padded(c, 2)), first, separator)
      == Some((a, b, c))
  {
    var s := Padded(a, first) + [separator] + (Padded(b, 2) + [separator] + Padded(c, 2));
    assert Pow10(2) == 100 by { assert Pow10(1) == 10; }
    NumberOfPadded(a, first);
    NumberOfPadded(b, 2);
    NumberOfPadded(c, 2);
    assert s[..first] == Padded(a, first);
    assert s[first + 1..first + 3] == Padded(b, 2);
    assert s[first + 4..] == Padded(c, 2);
  }

  lemma Powers()
    ensures Pow10(4) == 10_000 && Pow10(2) == 100 && Pow10(6) == 1_000_000
  {
    assert Pow10(1) == 10;
    assert Pow10(2) == 100;
    assert Pow10(3) == 1000;
    assert Pow10(4) == 10_000;
    assert Pow10(5) == 100_000;
  }

  lemma FractionRoundTrip(micro: nat)
    requires micro < 1_000_000
    ensures Fraction(FractionText(micro)) == Some(micro)
  {
    Powers();
    NumberOfPadded(micro, 6);
    if micro != 0 { assert FractionText(micro)[1..] == Padded(micro, 6); }
  }

  /** Reading back an isoformat text gives the time, with or without microseconds. */
  lemma IsoRoundTrip(t: DateTime)
    requires ValidTime(t)
    ensures FromIso(Iso(t)) == Some(t)
  {
    hide Triple, Fraction, FractionText, Padded, ValidTime;
    Powers();
    var date, clock := DateText(t.year, t.month, t.day), ClockText(t.hour, t.minute, t.second);
    var fraction := FractionText(t.micro);
    FieldsSmall(t);
    TripleRoundTrip(t.year, t.month, t.day, 4, '-');
    TripleRoundTrip(t.hour, t.minute, t.second, 2, ':');
    FractionRoundTrip(t.micro);
    var s := Iso(t);
    assert s[..10] == date;
    assert s[10] == 'T';
    assert s[11..19] == clock;
    assert s[19..|s| - 6] == fraction;
    assert s[|s| - 6..] == "+00:00";
  }

  lemma FieldsSmall(t: DateTime)
    requires ValidTime(t)
    ensures t.year < 10_000 && t.month < 100 && t.day < 100 && t.hour < 100 && t.minute < 100 && t.second < 100
    ensures t.micro < 1_000_000
  {
  }

  // The numeral of n stands in s from i on, filled up with zeros to the width.
  predicate Reads(s: string, i: nat, width: nat, n: nat) {
    i + width <= |s| && AllDigits(s[i..i + width]) && Number(s[i..i + width]) == n
  }

  /** Where each field stands in the text of a time. */
  lemma IsoMeaning(t: DateTime)
    requires ValidTime(t)
    ensures var s := Iso(t);
      && |s| == (if t.micro == 0 then 25 else 32) && s[|s| - 6..] == "+00:00"
      && Reads(s, 0, 4, t.year) && s[4] == '-' && Reads(s, 5, 2, t.month) && s[7] == '-' && Reads(s, 8, 2, t.day)
      && s[10] == 'T' && Reads(s, 11, 2, t.hour) && s[13] == ':' && Reads(s, 14, 2, t.minute) && s[16] == ':'
      && Reads(s, 17, 2, t.second) && (t.micro != 0 ==> s[19] == '.' && Reads(s, 20, 6, t.micro))
  {
    hide Padded, ValidTime, Number, AllDigits;
    Powers();
    FieldsSmall(t);
    var s := Iso(t);
    assert s[0..4] == Padded(t.year, 4) && s[5..7] == Padded(t.month, 2) && s[8..10] == Padded(t.day, 2);
    assert s[11..13] == Padded(t.hour, 2) && s[14..16] == Padded(t.minute, 2) && s[17..19] == Padded(t.second, 2);
    assert t.micro != 0 ==> s[20..26] == Padded(t.micro, 6);
    NumberOfPadded(t.year, 4);
    NumberOfPadded(t.month, 2);
    NumberOfPadded(t.day, 2);
    NumberOfPadded(t.hour, 2);
    NumberOfPadded(t.minute, 2);
    NumberOfPadded(t.second, 2);
    NumberOfPadded(t.micro, 6);
  }

  // ---- compact JSON -----------------------------------------------------------------------------

  function Json(time: string, id: nat): string {
    "[\"" + (time + ("\"," + (Numeral(id) + "]")))
  }

  // The text before the first quotation mark, and what follows it.
  function AtQuote(s: string): Option<(string, string)> {
    if s == [] then None
    else if s[0] == '"' then Some(([], s[1..]))
    else match AtQuote(s[1..]) case None => None case Some((a, b)) => Some(([s[0]] + a, b))
  }

  // A JSON integer without sign, fraction or exponent has no superfluous leading zero.
  function JsonInteger(s: string): Option<nat> {
    if s != [] && AllDigits(s) && (s[0] != '0' || |s| == 1) then Some(Number(s)) else None
  }

  function ParseJson(s: string): Option<(string, nat)> {
    if |s| < 2 || s[..2] != "[\"" then None else
      match AtQuote(s[2..])
      case None => None
      case Some((time, rest)) =>
        if |rest| < 2 || rest[0] != ',' || rest[|rest| - 1] != ']' then None else
          match JsonInteger(rest[1..|rest| - 1]) case None => None case Some(id) => Some((time, id))
  }

  lemma {:induction false} AtFirstQuote(a: string, b: string)
    requires '"' !in a
    ensures AtQuote(a + ("\"" + b)) == Some((a, b))
  {
    var s := a + ("\"" + b);
    if a == [] {
      assert s[1..] == b;
    } else {
      assert s[1..] == a[1..] + ("\"" + b);
      assert a[0] in a && s[0] == a[0];
      AtFirstQuote(a[1..], b);
      assert [a[0]] + a[1..] == a;
    }
  }

  lemma {:induction false} NumeralHasNoLeadingZero(n: nat)
    ensures Numeral(n)[0] != '0' || |Numeral(n)| == 1
    ensures n > 0 ==> Numeral(n)[0] != '0'
  {
    if n >= 10 { NumeralHasNoLeadingZero(n / 10); }
  }

  /** The text of a position: an array of the quoted time and the numeral of the id, without blanks. */
  lemma JsonMeaning(time: string, id: nat)
    ensures var s, n := Json(time, id), |time|;
      && |s| == n + |Numeral(id)| + 5
      && s[0] == '[' && s[1] == '"' && s[2..n + 2] == time && s[n + 2] == '"' && s[n + 3] == ','
      && s[n + 4..|s| - 1] == Numeral(id) && s[|s| - 1] == ']'
  {
    hide Numeral;
  }

  lemma JsonRoundTrip(time: string, id: nat)
    requires '"' !in time
    ensures ParseJson(Json(time, id)) == Some((time, id))
  {
    hide Numeral, Number;
    var s := Json(time, id);
    var rest := "," + (Numeral(id) + "]");
    assert s[2..] == time + ("\"" + rest);
    AtFirstQuote(time, rest);
    NumeralHasNoLeadingZero(id);
    NumberOfNumeral(id);
    assert rest[1..|rest| - 1] == Numeral(id);
  }

  // ---- the cursor ---------------------------------------------------------------------------------

  predicate Ascii(s: string) { forall i | 0 <= i < |s| :: s[i] < 128 as char }

  function Octet(c: char): Byte { if c < 128 as char then c as int else 0 }

  function Octets8(s: string): (r: seq<Byte>)
    ensures |r| == |s| && forall i | 0 <= i < |s| :: r[i] == Octet(s[i])
  {
    seq(|s|, i requires 0 <= i < |s| => Octet(s[i]))
  }

  function Text(bs: seq<Byte>): (r: string)
    ensures |r| == |bs| && forall i | 0 <= i < |bs| :: r[i] == bs[i] as char
  {
    seq(|bs|, i requires 0 <= i < |bs| => bs[i] as char)
  }

  function EncodeEventCursor(t: DateTime, id: nat): string {
    Stripped(Base64.Encode(Octets8(Json(Iso(t), id))))
  }

  // None stands for the ValueError. Texts that Python's readers also accept but no encoder writes
  // (other ISO 8601 forms, JSON whitespace and escapes, stray characters in base64) are None here too.
  function DecodeEventCursor(cursor: string): (r: Option<(DateTime, nat)>)
    ensures r.Some? ==> ValidTime(r.value.0) && r.value.1 > 0
  {
    match Base64.Decode(Restored(cursor))
    case None => None
    case Some(payload) =>
      match ParseJson(Text(payload))
      case None => None
      case Some((time, id)) =>
        match FromIso(time)
        case None => None
        case Some(t) => if id == 0 then None else Some((t, id))
  }

  lemma AsciiText(s: string)
    requires Ascii(s)
    ensures Text(Octets8(s)) == s
  {
  }

  predicate Plain(s: string) { Ascii(s) && '"' !in s }

  lemma PlainConcat(a: string, b: string)
    requires Plain(a) && Plain(b)
    ensures Plain(a + b)
  {
  }

  lemma IsoPlain(t: DateTime)
    ensures Plain(Iso(t))
  {
    hide Padded, Plain, AllDigits;
    DigitsPlain(Padded(t.year, 4));
    DigitsPlain(Padded(t.month, 2));
    DigitsPlain(Padded(t.day, 2));
    DigitsPlain(Padded(t.hour, 2));
    DigitsPlain(Padded(t.minute, 2));
    DigitsPlain(Padded(t.second, 2));
    DigitsPlain(Padded(t.micro, 6));
    Separators();
    PlainTriple(Padded(t.year, 4), "-", Padded(t.month, 2), Padded(t.day, 2));
    PlainTriple(Padded(t.hour, 2), ":", Padded(t.minute, 2), Padded(t.second, 2));
    PlainConcat(".", Padded(t.micro, 6));
    PlainConcat(FractionText(t.micro), "+00:00");
    PlainConcat(ClockText(t.hour, t.minute, t.second), FractionText(t.micro) + "+00:00");
    PlainConcat(DateText(t.year, t.month, t.day), "T");
    PlainConcat(DateText(t.year, t.month, t.day) + "T",
                ClockText(t.hour, t.minute, t.second) + (FractionText(t.micro) + "+00:00"));
  }

  lemma PlainTriple(a: string, separator: string, b: string, c: string)
    requires Plain(a) && Plain(separator) && Plain(b) && Plain(c)
    ensures Plain(a + separator + (b + separator + c))
  {
  }

  lemma {:induction false} DigitsPlain(s: string)
    requires AllDigits(s)
    ensures Plain(s)
  {
    forall i | 0 <= i < |s| ensures s[i] < 128 as char { assert s[i] in s; }
  }

  lemma Separators()
    ensures Plain("-") && Plain(":") && Plain("T") && Plain(".") && Plain("+00:00") && Plain([])
  {
  }

  lemma JsonAscii(time: string, id: nat)
    requires Plain(time)
    ensures Ascii(Json(time, id))
  {
    hide Numeral;
    DigitsPlain(Numeral(id));
  }

  /** The cursor survives the trip to the client: for every UTC time, whole second or not, and every
      positive id, decoding gives back exactly what was encoded. */
  lemma CursorRoundTrip(t: DateTime, id: nat)
    requires ValidTime(t) && id > 0
    ensures DecodeEventCursor(EncodeEventCursor(t, id)) == Some((t, id))
  {
    hide Json, ParseJson, Iso, FromIso, Base64.Encode, Base64.Decode, Octets8, Text;
    hide ValidTime, Ascii, Plain, Restored, Stripped;
    var time := Iso(t);
    IsoPlain(t);
    JsonAscii(time, id);
    assert '"' !in time by { PlainQuote(time); }
    JsonRoundTrip(time, id);
    IsoRoundTrip(t);
    var payload := Octets8(Json(time, id));
    RestoredStripped(payload);
    DecodeEncode(payload);
    AsciiText(Json(time, id));
  }

  lemma PlainQuote(s: string)
    requires Plain(s)
    ensures '"' !in s
  {
  }

  /** A cursor needs no escaping in a URL. */
  lemma CursorIsUrlSafe(t: DateTime, id: nat)
    ensures forall c | c in EncodeEventCursor(t, id) :: c in ALPHABET
  {
    hide Base64.Encode, Stripped, ALPHABET, Json;
    UrlSafe(Octets8(Json(Iso(t), id)));
  }

  /** Two different positions never share a cursor. */
  lemma CursorInjective(t: DateTime, id: nat, t': DateTime, id': nat)
    requires ValidTime(t) && id > 0 && ValidTime(t') && id' > 0
    requires EncodeEventCursor(t, id) == EncodeEventCursor(t', id')
    ensures t == t' && id == id'
  {
    hide EncodeEventCursor, DecodeEventCursor;
    CursorRoundTrip(t, id);
    CursorRoundTrip(t', id');
  }
}
