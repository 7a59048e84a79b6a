/** The two timestamp texts of the system and the conversions between them: the display
    form "DD/MM/YYYY, HH:MM" that the read endpoint produces and the write endpoint
    converts, and the storage form "YYYY-MM-DD HH:MM:SS" of the fecha_copia column. The
    page's own timestamps come from the locale formatter; all the page relies on is that
    they start with "DD/MM/YYYY, ". */
module DateText {
  import opened Text

  /** Positions `lo` up to `hi` of `s` hold decimal digits. */
  predicate DigitsAt(s: string, lo: nat, hi: nat)
    requires lo <= hi <= |s|
  {
    forall k :: lo <= k < hi ==> IsDigit(s[k])
  }

  /** The length of a month of the Gregorian calendar. */
  function DaysInMonth(year: nat, month: nat): (n: nat)
    ensures 28 <= n <= 31
  {
    if month == 2 then (if year % 4 == 0 && (year % 100 != 0 || year % 400 == 0) then 29 else 28)
    else if month == 4 || month == 6 || month == 9 || month == 11 then 30
    else 31
  }

  /** A day of the calendar. */
  predicate CalendarDay(day: nat, month: nat, year: nat)
  {
    1 <= month <= 12 && 1 <= day <= DaysInMonth(year, month)
  }

  /** A time of the 24-hour clock. */
  predicate ClockTime(hour: nat, minute: nat)
  {
    hour < 24 && minute < 60
  }

  /** The value of the two digits at `k`. */
  function Two(s: string, k: nat): (n: nat)
    requires k + 2 <= |s| && DigitsAt(s, k, k + 2)
    ensures n < 100
  {
    DigitValue(s[k]) * 10 + DigitValue(s[k + 1])
  }

  /** The value of the four digits at `k`. */
  function Four(s: string, k: nat): (n: nat)
    requires k + 4 <= |s| && DigitsAt(s, k, k + 4)
  {
    Two(s, k) * 100 + Two(s, k + 2)
  }

  /** "DD/MM/YYYY", as text only. */
  predicate IsDisplayDate(d: string)
  {
    && |d| == 10
    && DigitsAt(d, 0, 2) && d[2] == '/' && DigitsAt(d, 3, 5) && d[5] == '/' && DigitsAt(d, 6, 10)
  }

  /** Text that starts with a date and ", ": what the page matches and counts days on.
      Whatever follows (a 24-hour or a 12-hour time) is not looked at. */
  predicate StartsWithDate(s: string)
  {
    |s| >= 12 && IsDisplayDate(s[..10]) && s[10] == ',' && s[11] == ' '
  }

  /** "DD/MM/YYYY, HH:MM" naming a calendar day and a time of the 24-hour clock: what
      `date('d/m/Y, H:i', …)` produces. */
  predicate IsDisplayStamp(s: string)
  {
    && |s| == 17
    && DigitsAt(s, 0, 2) && s[2] == '/' && DigitsAt(s, 3, 5) && s[5] == '/' && DigitsAt(s, 6, 10)
    && s[10] == ',' && s[11] == ' '
    && DigitsAt(s, 12, 14) && s[14] == ':' && DigitsAt(s, 15, 17)
    && CalendarDay(Two(s, 0), Two(s, 3), Four(s, 6)) && ClockTime(Two(s, 12), Two(s, 15))
  }

  /** "YYYY-MM-DD HH:MM:SS" naming a calendar day and a time: the text of a DATETIME value. */
  predicate IsStorageStamp(t: string)
  {
    && |t| == 19
    && DigitsAt(t, 0, 4) && t[4] == '-' && DigitsAt(t, 5, 7) && t[7] == '-' && DigitsAt(t, 8, 10)
    && t[10] == ' '
    && DigitsAt(t, 11, 13) && t[13] == ':' && DigitsAt(t, 14, 16) && t[16] == ':' && DigitsAt(t, 17, 19)
    && CalendarDay(Two(t, 8), Two(t, 5), Four(t, 0)) && ClockTime(Two(t, 11), Two(t, 14))
    && Two(t, 17) < 60
  }

  /** `$parts[k]` in PHP: an index past the end reads as null, which concatenates as "". */
  function Part(parts: seq<string>, k: nat): string
  {
    if k < |parts| then parts[k] else ""
  }

  /** save_backups.php's conversion of `fecha` to the storage form: split at ", ",
      split the date at "/", put the three date parts in reverse order joined by '-',
      take the time part (or "00:00" when there is none) and append ":00". */
  function ToStorage(fecha: string): string
  {
    var fechaParts := Split(fecha, ", ");
    var dateParts := Split(fechaParts[0], "/");
    var time := if |fechaParts| > 1 then fechaParts[1] else "00:00";
    Part(dateParts, 2) + "-" + Part(dateParts, 1) + "-" + Part(dateParts, 0) + " " + time + ":00"
  }

  /** get_backups.php's `date('d/m/Y, H:i', strtotime($fecha))` on a DATETIME text:
      the same day and time, reordered, without the seconds. */
  function FromStorage(t: string): (s: string)
    requires IsStorageStamp(t)
    ensures IsDisplayStamp(s)
  {
    var s := t[8..10] + "/" + t[5..7] + "/" + t[..4] + ", " + t[11..13] + ":" + t[14..16];
    DisplayFields(t, s);
    s
  }

  /** The fields of the display text are the fields of the DATETIME text. */
  lemma DisplayFields(t: string, s: string)
    requires IsStorageStamp(t)
    requires s == t[8..10] + "/" + t[5..7] + "/" + t[..4] + ", " + t[11..13] + ":" + t[14..16]
    ensures IsDisplayStamp(s)
  {
    assert s[0] == t[8] && s[1] == t[9] && s[3] == t[5] && s[4] == t[6];
    assert s[6] == t[0] && s[7] == t[1] && s[8] == t[2] && s[9] == t[3];
    assert s[12] == t[11] && s[13] == t[12] && s[15] == t[14] && s[16] == t[15];
  }

  /** The date part getDaysSince hands to `new Date`:
      `stamp.split(', ')[0].split('/').reverse().join('-')`. */
  function DatePart(stamp: string): string
  {
    Join(Reverse(Split(Split(stamp, ", ")[0], "/")), "-")
  }

  /** The day a backup is matched on in the export: `backup.split(',')[0].trim()`. */
  function DayText(backup: string): string
  {
    Trim(Split(backup, ",")[0])
  }

  /** No character of `s` is `c`. */
  predicate Lacks(s: string, c: char)
  {
    forall k :: 0 <= k < |s| ==> s[k] != c
  }

  /** How a display date splits at "/". */
  lemma SplitDisplayDate(d: string)
    requires IsDisplayDate(d)
    ensures Split(d, "/") == [d[..2], d[3..5], d[6..]]
  {
    var day, month, year := d[..2], d[3..5], d[6..];
    assert Lacks(day, '/') by {
      forall k | 0 <= k < 2 ensures day[k] != '/' { assert day[k] == d[k]; }
    }
    assert Lacks(month, '/') by {
      forall k | 0 <= k < 2 ensures month[k] != '/' { assert month[k] == d[3 + k]; }
    }
    assert Lacks(year, '/') by {
      forall k | 0 <= k < 4 ensures year[k] != '/' { assert year[k] == d[6 + k]; }
    }
    assert d == day + "/" + (month + "/" + year);
    SplitAfter(day, "/", month + "/" + year);
    SplitAfter(month, "/", year);
    SplitWithout(year, "/");
  }

  /** The first ten characters of a display stamp are a display date, followed by ", ". */
  lemma StampStartsWithDate(s: string)
    requires IsDisplayStamp(s)
    ensures StartsWithDate(s)
  {
    var d := s[..10];
    assert forall k :: 0 <= k < 10 ==> d[k] == s[k];
  }

  /** A display date holds no ','. */
  lemma DateLacksComma(s: string)
    requires StartsWithDate(s)
    ensures Lacks(s[..10], ',')
  {
    var date := s[..10];
    forall k | 0 <= k < 10 ensures date[k] != ',' {
      assert IsDigit(date[k]) || date[k] == '/';
    }
  }

  /** Dated text splits at ", " into its date and the pieces of what follows. */
  lemma SplitDatedAtCommaSpace(s: string)
    requires StartsWithDate(s)
    ensures Split(s, ", ") == [s[..10]] + Split(s[12..], ", ")
  {
    DateLacksComma(s);
    assert s == s[..10] + ", " + s[12..];
    SplitAfter(s[..10], ", ", s[12..]);
  }

  /** The first piece of dated text split at "," is its date. */
  lemma SplitDatedAtComma(s: string)
    requires StartsWithDate(s)
    ensures Split(s, ",")[0] == s[..10]
  {
    DateLacksComma(s);
    assert s == s[..10] + "," + s[11..];
    SplitAfter(s[..10], ",", s[11..]);
  }

  /** Dated text is stored as "YYYY-MM-DD " followed by the text after ", " up to the next
      ", ", and ":00". */
  lemma ToStorageOfDated(s: string)
    requires StartsWithDate(s)
    ensures ToStorage(s)
      == s[6..10] + "-" + s[3..5] + "-" + s[..2] + " " + Split(s[12..], ", ")[0] + ":00"
  {
    SplitDatedAtCommaSpace(s);
    var date := s[..10];
    SplitDisplayDate(date);
    assert date[..2] == s[..2] && date[3..5] == s[3..5] && date[6..] == s[6..10];
  }

  /** A display stamp is stored as "YYYY-MM-DD HH:MM:00": "05/12/2024, 14:30" becomes
      "2024-12-05 14:30:00". */
  lemma ToStorageOfStamp(s: string)
    requires IsDisplayStamp(s)
    ensures ToStorage(s) == s[6..10] + "-" + s[3..5] + "-" + s[..2] + " " + s[12..] + ":00"
  {
    StampStartsWithDate(s);
    ToStorageOfDated(s);
    var time := s[12..];
    assert Lacks(time, ',') by {
      forall k | 0 <= k < 5 ensures time[k] != ',' { assert time[k] == s[12 + k]; }
    }
    SplitWithout(time, ", ");
  }

  /** A date with no ", " time part is stored at midnight: "YYYY-MM-DD 00:00:00". */
  lemma ToStorageOfDate(d: string)
    requires IsDisplayDate(d)
    ensures ToStorage(d) == d[6..] + "-" + d[3..5] + "-" + d[..2] + " 00:00:00"
  {
    assert Lacks(d, ',');
    SplitWithout(d, ", ");
    SplitDisplayDate(d);
  }

  /** The storage text built from the parts of a display stamp names the same day and
      time and reads back as that stamp. */
  lemma StoredPartsReadBack(s: string, t: string)
    requires IsDisplayStamp(s)
    requires t == s[6..10] + "-" + s[3..5] + "-" + s[..2] + " " + s[12..] + ":00"
    ensures IsStorageStamp(t) && FromStorage(t) == s
  {
    assert forall k :: 0 <= k < 4 ==> t[k] == s[6 + k];
    assert forall k :: 5 <= k < 7 ==> t[k] == s[k - 2];
    assert forall k :: 8 <= k < 10 ==> t[k] == s[k - 8];
    assert forall k :: 11 <= k < 16 ==> t[k] == s[k + 1];
    assert t[17] == '0' && t[18] == '0';
    assert t[8..10] == s[..2] && t[5..7] == s[3..5] && t[..4] == s[6..10];
    assert t[11..13] == s[12..14] && t[14..16] == s[15..17];
    assert s == s[..2] + "/" + s[3..5] + "/" + s[6..10] + ", " + s[12..14] + ":" + s[15..17];
  }

  /** A display stamp, stored and read back, is the same display stamp. */
  lemma DisplayRoundTrip(s: string)
    requires IsDisplayStamp(s)
    ensures IsStorageStamp(ToStorage(s))
    ensures FromStorage(ToStorage(s)) == s
  {
    ToStorageOfStamp(s);
    StoredPartsReadBack(s, ToStorage(s));
  }

  /** The display text of a DATETIME, cut into the parts the conversion back uses. */
  lemma DisplayOfStored(t: string)
    requires IsStorageStamp(t)
    ensures var s := FromStorage(t);
      s[6..10] + "-" + s[3..5] + "-" + s[..2] + " " + s[12..] + ":00" == t[..17] + "00"
  {
    var year, month, day, hour, minute := t[..4], t[5..7], t[8..10], t[11..13], t[14..16];
    var s := FromStorage(t);
    assert s == day + "/" + month + "/" + year + ", " + hour + ":" + minute;
    assert s[6..10] == year && s[3..5] == month && s[..2] == day;
    assert s[12..] == hour + ":" + minute;
    assert t[..17] == year + "-" + month + "-" + day + " " + hour + ":" + minute + ":";
  }

  /** A stored DATETIME, shown and saved again, comes back with its seconds set to zero. */
  lemma StorageRoundTrip(t: string)
    requires IsStorageStamp(t)
    ensures ToStorage(FromStorage(t)) == t[..17] + "00"
  {
    ToStorageOfStamp(FromStorage(t));
    DisplayOfStored(t);
  }

  /** For dated text, whatever its time looks like, the date getDaysSince builds is
      "YYYY-MM-DD", the date half of the stored form. */
  lemma DatePartOfDated(s: string)
    requires StartsWithDate(s)
    ensures DatePart(s) == s[6..10] + "-" + s[3..5] + "-" + s[..2]
    ensures |ToStorage(s)| >= 10 && DatePart(s) == ToStorage(s)[..10]
  {
    SplitDatedAtCommaSpace(s);
    var date := s[..10];
    SplitDisplayDate(date);
    var pieces := [date[..2], date[3..5], date[6..]];
    assert Reverse(pieces) == [pieces[2], pieces[1], pieces[0]];
    assert Join([pieces[0]], "-") == pieces[0];
    assert Join([pieces[1], pieces[0]], "-") == pieces[1] + "-" + pieces[0];
    assert Join([pieces[2], pieces[1], pieces[0]], "-") == pieces[2] + "-" + (pieces[1] + "-" + pieces[0]);
    assert date[..2] == s[..2] && date[3..5] == s[3..5] && date[6..] == s[6..10];
    ToStorageOfDated(s);
  }

  /** For dated text, whatever its time looks like, the export matches on its
      "DD/MM/YYYY" half. */
  lemma DayTextOfDated(s: string)
    requires StartsWithDate(s)
    ensures DayText(s) == s[..10]
  {
    SplitDatedAtComma(s);
    assert s[..10][0] == s[0] && s[..10][9] == s[9];
    TrimDigits(s[..10]);
  }
}
