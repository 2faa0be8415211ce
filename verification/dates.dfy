/** The `parseDate` helper of both handlers: a `DD-MM-YYYY` text is split on
    `-`, its parts are reordered into `YYYY-MM-DD` and that text is read as a
    JavaScript date. The model reads only the ISO date-only form; anything
    else is an invalid time value (NaN), written `None`. The epoch time of a
    valid date is replaced by an ordinal with the same ordering. */
module Dates {
  import opened Wrappers
  import opened Text

  datatype Date = Date(year: nat, month: nat, day: nat)

  /** The ranges the ISO date-only form admits: a four-digit year, month
      01 to 12, day 01 to 31. */
  predicate Valid(d: Date)
  {
    d.year <= 9999 && 1 <= d.month <= 12 && 1 <= d.day <= 31
  }

  /** Calendar order: by year, then month, then day. */
  predicate Before(a: Date, b: Date)
  {
    || a.year < b.year
    || (a.year == b.year && a.month < b.month)
    || (a.year == b.year && a.month == b.month && a.day < b.day)
  }

  /** The comparable value standing for the date's epoch time. */
  function Ordinal(d: Date): int
  {
    (d.year * 100 + d.month) * 100 + d.day
  }

  /** The ordinal orders valid dates exactly as the calendar does. */
  lemma OrdinalOrder(a: Date, b: Date)
    requires Valid(a) && Valid(b)
    ensures Ordinal(a) < Ordinal(b) <==> Before(a, b)
    ensures Ordinal(a) == Ordinal(b) <==> a == b
  {
  }

  /** The destructured part `i`; a missing part is `undefined`, which a
      template literal spells out. */
  function Part(parts: seq<string>, i: nat): string
  {
    if i < |parts| then parts[i] else "undefined"
  }

  /** The text handed to the Date constructor: `${year}-${month}-${day}`
      where `[day, month, year]` are the first three parts of the split. */
  function ToIso(s: string): string
  {
    var p := Split(s, '-');
    Part(p, 2) + "-" + Part(p, 1) + "-" + Part(p, 0)
  }

  /** Reading a `YYYY-MM-DD` text as a date; `None` is an invalid date. */
  function ParseIso(iso: string): (r: Option<Date>)
    ensures r.Some? ==> Valid(r.value)
  {
    var f := Split(iso, '-');
    if |f| == 3 && |f[0]| == 4 && |f[1]| == 2 && |f[2]| == 2
       && AllDigits(f[0]) && AllDigits(f[1]) && AllDigits(f[2])
    then
      var d := Date(Value(f[0]), Value(f[1]), Value(f[2]));
      if Valid(d) then Some(d) else None
    else None
  }

  /** The calendar date `parseDate` reads from a `DD-MM-YYYY` text. */
  function ParseDay(s: string): Option<Date>
  {
    ParseIso(ToIso(s))
  }

  /** `parseDate` itself: the comparable time value, `None` for NaN. */
  function ParseDate(s: string): Option<int>
  {
    match ParseDay(s)
    case None => None
    case Some(d) => Some(Ordinal(d))
  }

  /** The well-formed, zero-padded `DD-MM-YYYY` text of a date. */
  function Format(d: Date): string
  {
    Join([Pad(d.day, 2), Pad(d.month, 2), Pad(d.year, 4)], '-')
  }

  lemma FormatLength(d: Date)
    ensures |Format(d)| == 10
  {
    Join3(Pad(d.day, 2), Pad(d.month, 2), Pad(d.year, 4), '-');
  }

  /** The text handed to the Date constructor, split again, is the first
      three parts of the input in reverse order. */
  lemma IsoParts(s: string)
    ensures Split(ToIso(s), '-') == [Part(Split(s, '-'), 2), Part(Split(s, '-'), 1), Part(Split(s, '-'), 0)]
  {
    var p := Split(s, '-');
    var q := [Part(p, 2), Part(p, 1), Part(p, 0)];
    assert "undefined"[1] != '-';
    assert SepFree(q, '-');
    Join3(Part(p, 2), Part(p, 1), Part(p, 0), '-');
    SplitJoin(q, '-');
  }

  /** What `parseDate` reads from a text, in terms of its first three parts. */
  lemma ParseDayParts(s: string)
    ensures var p := Split(s, '-');
      ParseDay(s) ==
        if |p| >= 3 && |p[0]| == 2 && |p[1]| == 2 && |p[2]| == 4
           && AllDigits(p[0]) && AllDigits(p[1]) && AllDigits(p[2])
           && Valid(Date(Value(p[2]), Value(p[1]), Value(p[0])))
        then Some(Date(Value(p[2]), Value(p[1]), Value(p[0])))
        else None
  {
    IsoParts(s);
  }

  lemma FormatParts(d: Date)
    requires Valid(d)
    ensures Split(Format(d), '-') == [Pad(d.day, 2), Pad(d.month, 2), Pad(d.year, 4)]
  {
    var q := [Pad(d.day, 2), Pad(d.month, 2), Pad(d.year, 4)];
    DigitsSepFree(q[0], '-');
    DigitsSepFree(q[1], '-');
    DigitsSepFree(q[2], '-');
    SplitJoin(q, '-');
  }

  /** Round trip: the formatted text of a valid date parses back to it. */
  lemma ParseFormat(d: Date)
    requires Valid(d)
    ensures ParseDay(Format(d)) == Some(d)
    ensures ParseDate(Format(d)) == Some(Ordinal(d))
  {
    FormatParts(d);
    ParseDayParts(Format(d));
    ValuePad(d.day, 2);
    ValuePad(d.month, 2);
    ValuePad(d.year, 4);
  }

  /** Exactly the texts that parse to `d`: its formatted text, possibly
      followed by `-` and anything, since parts past the third are dropped. */
  lemma ParseDayExactly(s: string, d: Date)
    ensures ParseDay(s) == Some(d) <==> Valid(d) && (s == Format(d) || Format(d) + "-" <= s)
  {
    var p := Split(s, '-');
    ParseDayParts(s);
    if ParseDay(s) == Some(d) {
      PadValue(p[0]);
      PadValue(p[1]);
      PadValue(p[2]);
      var head := p[..3];
      assert head == [Pad(d.day, 2), Pad(d.month, 2), Pad(d.year, 4)];
      if |p| > 3 {
        JoinAppend(head, p[3..], '-');
        assert head + p[3..] == p;
        FormatLength(d);
        assert s == Format(d) + "-" + Join(p[3..], '-');
      } else {
        assert p == head;
      }
    }
    if Valid(d) && s != Format(d) && Format(d) + "-" <= s {
      FormatLength(d);
      var rest := s[11..];
      assert s == Format(d) + "-" + rest;
      SplitAround(Format(d), rest, '-');
      FormatParts(d);
      ParseFormat(d);
      ParseDayParts(Format(d));
    }
    if Valid(d) && s == Format(d) {
      ParseFormat(d);
    }
  }

  /** For texts that parse, `parseDate` compares them as the calendar does. */
  lemma ParseDateOrder(a: string, b: string)
    ensures ParseDay(a).Some? && ParseDay(b).Some? ==>
      && ParseDate(a) == Some(Ordinal(ParseDay(a).value))
      && ParseDate(b) == Some(Ordinal(ParseDay(b).value))
      && (ParseDate(a).value < ParseDate(b).value <==> Before(ParseDay(a).value, ParseDay(b).value))
      && (ParseDate(a) == ParseDate(b) <==> ParseDay(a) == ParseDay(b))
  {
    if ParseDay(a).Some? && ParseDay(b).Some? {
      OrdinalOrder(ParseDay(a).value, ParseDay(b).value);
    }
  }
}
