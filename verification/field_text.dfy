/** The text forms of the non-string fields in the persisted document:
    dates as "year,month,day", date-times as "year,month,day,hour,minute",
    booleans as `String.valueOf(boolean)`. */
module FieldText {
  import opened Wrappers
  import opened Decimal
  import opened Time

  function EncodeDate(d: Date): string {
    Join([IntToString(d.year), IntToString(d.month), IntToString(d.day)])
  }

  /** Splits on ',' and parses the first three fields; a missing field or a
      field that is not an `int` fails. */
  function DecodeDate(t: string): Option<Date> {
    var f := Split(t);
    if |f| < 3 then None
    else match (ParseInt(f[0]), ParseInt(f[1]), ParseInt(f[2]))
      case (Some(y), Some(m), Some(d)) => Some(Date(y, m, d))
      case _ => None
  }

  function EncodeDateTime(t: DateTime): string {
    Join([IntToString(t.date.year), IntToString(t.date.month), IntToString(t.date.day),
          IntToString(t.hour), IntToString(t.minute)])
  }

  /** Splits on ',' and parses the first five fields. */
  function DecodeDateTime(t: string): Option<DateTime> {
    var f := Split(t);
    if |f| < 5 then None
    else match (ParseInt(f[0]), ParseInt(f[1]), ParseInt(f[2]), ParseInt(f[3]), ParseInt(f[4]))
      case (Some(y), Some(mo), Some(d), Some(h), Some(mi)) => Some(DateTime(Date(y, mo, d), h, mi))
      case _ => None
  }

  /** `String.valueOf(boolean)`. */
  function BoolText(b: bool): string {
    if b then "true" else "false"
  }

  /** Decoding an encoded date gives back the date. */
  lemma {:induction false} DateRoundTrip(d: Date)
    ensures DecodeDate(EncodeDate(d)) == Some(d)
  {
    var f := [IntToString(d.year), IntToString(d.month), IntToString(d.day)];
    SplitJoin(f);
    IntRoundTrip(d.year);
    IntRoundTrip(d.month);
    IntRoundTrip(d.day);
  }

  /** Decoding an encoded date-time gives back the date-time. */
  lemma {:induction false} DateTimeRoundTrip(t: DateTime)
    ensures DecodeDateTime(EncodeDateTime(t)) == Some(t)
  {
    var f := [IntToString(t.date.year), IntToString(t.date.month), IntToString(t.date.day),
              IntToString(t.hour), IntToString(t.minute)];
    SplitJoin(f);
    IntRoundTrip(t.date.year);
    IntRoundTrip(t.date.month);
    IntRoundTrip(t.date.day);
    IntRoundTrip(t.hour);
    IntRoundTrip(t.minute);
  }
}
