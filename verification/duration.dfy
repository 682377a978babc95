/** getDurationInSeconds: turns the site's duration text, "x h y min z s"
    with the hours part optional, into a number of seconds. */
module Duration {
  import opened Wrappers
  import opened PyBuiltins

  /** `int(field)`: its value, or the ValueError it raises. */
  function IntField(field: string): Result<int, Exception> {
    var v := ParseInt(field);
    if v.Some? then Ok(v.value) else Err(ValueError(field))
  }

  /** `int(str(n))` is n and `int("-" + str(n))` is -n. */
  lemma IntFieldOfNumeral(n: nat)
    ensures IntField(ShowNat(n)) == Ok(n)
    ensures IntField("-" + ShowNat(n)) == Ok(-(n as int))
  {
    ParseShowNat(n);
  }

  /** `int()` of a field without a decimal digit raises ValueError with that field. */
  lemma IntFieldRejectsDigitless(field: string)
    requires forall i :: 0 <= i < |field| ==> !IsDigit(field[i])
    ensures IntField(field) == Err(ValueError(field))
  {
    ParseIntNeedsDigit(field);
  }

  /** `minutes * 60 + seconds` once both fields are parsed; the minutes are
      parsed first, so their error is the one raised when both are bad. */
  function MinutesAndSeconds(minutes: Result<int, Exception>, seconds: Result<int, Exception>): Result<Option<int>, Exception> {
    if minutes.Err? then Err(minutes.error)
    else if seconds.Err? then Err(seconds.error)
    else Ok(Some(minutes.value * 60 + seconds.value))
  }

  /** The duration, in seconds, of a trip's duration text.
      Ok(None) is the "no recorded time" value (the source returns NaN);
      Err is the ValueError that int() raises on a slice that is not an integer.
      As in the source, the hours slice is parsed (and may raise) but the
      result is minutes * 60 + seconds only. */
  function DurationInSeconds(text: string): (r: Result<Option<int>, Exception>)
    ensures r.Err? ==> r.error.ValueError? && ParseInt(r.error.literal).None?
  {
    var m := Find(text, "min");
    if m == -1 then Ok(None)
    else DurationFromMarkers(text, m, Find(text, "h"), Find(text, "s"))
  }

  /** The rest of the computation once "min" has been found at m, given
      where "h" and "s" first occur (-1 when they do not). */
  function DurationFromMarkers(text: string, m: int, h: int, z: int): (r: Result<Option<int>, Exception>)
    ensures r.Err? ==> r.error.ValueError? && ParseInt(r.error.literal).None?
  {
    var seconds := Slice(text, m + 4, z - 1);
    if h != -1 then
      var hours := IntField(Slice(text, 0, h - 1));
      if hours.Err? then Err(hours.error)
      else MinutesAndSeconds(IntField(Slice(text, h + 2, m - 1)), IntField(seconds))
    else MinutesAndSeconds(IntField(Slice(text, 0, m - 1)), IntField(seconds))
  }

  /** The "not recorded" value comes back exactly when the text has no "min";
      any other text gives a number or raises. */
  lemma NotRecordedExactlyWithoutMinutes(text: string)
    ensures DurationInSeconds(text) == Ok(None) <==> !Contains(text, "min")
  {
    FindIsFirst(text, "min");
  }

  /** Which slices the branch reads, and whether int() rejects one of them:
      the hours (when "h" occurs), the minutes and the seconds. */
  predicate SomeSliceRejected(text: string) {
    var m, h, z := Find(text, "min"), Find(text, "h"), Find(text, "s");
    var minutesFrom := if h != -1 then h + 2 else 0;
    (h != -1 && ParseInt(Slice(text, 0, h - 1)).None?) ||
    ParseInt(Slice(text, minutesFrom, m - 1)).None? ||
    ParseInt(Slice(text, m + 4, z - 1)).None?
  }

  /** The parse raises exactly when the text mentions "min" and int()
      rejects one of the slices it reads; the hours slice counts too. */
  lemma RaisesExactlyOnRejectedSlice(text: string)
    ensures DurationInSeconds(text).Err? <==> Contains(text, "min") && SomeSliceRejected(text)
  {
    FindIsFirst(text, "min");
  }

  /** Without an hours marker: minutes from the text before "min", seconds
      from the text between "min " and the character before the first "s". */
  lemma DurationWithoutHours(text: string, m: nat, z: int, minutes: int, seconds: int)
    requires Find(text, "min") == m && Find(text, "h") == -1 && Find(text, "s") == z
    requires ParseInt(Slice(text, 0, m - 1)) == Some(minutes)
    requires ParseInt(Slice(text, m + 4, z - 1)) == Some(seconds)
    ensures DurationInSeconds(text) == Ok(Some(minutes * 60 + seconds))
  {
    assert DurationInSeconds(text) == DurationFromMarkers(text, m, Find(text, "h"), z);
  }

  /** With an hours marker, minutes come from between "h " and "min"; the
      hours, though parsed, do not enter the result. */
  lemma DurationWithHours(text: string, h: nat, m: nat, z: int, hours: int, minutes: int, seconds: int)
    requires Find(text, "min") == m && Find(text, "h") == h && Find(text, "s") == z
    requires ParseInt(Slice(text, 0, h - 1)) == Some(hours)
    requires ParseInt(Slice(text, h + 2, m - 1)) == Some(minutes)
    requires ParseInt(Slice(text, m + 4, z - 1)) == Some(seconds)
    ensures DurationInSeconds(text) == Ok(Some(minutes * 60 + seconds))
  {
    assert DurationInSeconds(text) == DurationFromMarkers(text, m, Find(text, "h"), z);
  }

  /** An hours slice that int() rejects raises, whatever follows it. */
  lemma DurationHoursRejected(text: string)
    requires Find(text, "min") != -1 && Find(text, "h") != -1
    requires ParseInt(Slice(text, 0, Find(text, "h") - 1)).None?
    ensures DurationInSeconds(text) == Err(ValueError(Slice(text, 0, Find(text, "h") - 1)))
  {
  }

  /** The site's duration text: "x h y min z s", or "y min z s" when there are no hours. */
  function Render(hours: Option<nat>, minutes: nat, seconds: nat): string {
    var head := if hours.Some? then ShowNat(hours.value) + " h " + ShowNat(minutes) else ShowNat(minutes);
    head + (" min " + ShowNat(seconds) + " s")
  }

  /** A numeral holds no letter and no space. */
  lemma NumeralAvoids(d: string)
    requires IsNumeral(d)
    ensures 'h' !in d && 'm' !in d && 's' !in d
  {
  }

  /** Where "min", "s" and the seconds numeral sit in "<head> min z s". */
  lemma SecondsField(head: string, S: string)
    requires 'm' !in head && 's' !in head
    requires IsNumeral(S)
    ensures Find(head + (" min " + S + " s"), "min") == |head| + 1
    ensures Find(head + (" min " + S + " s"), "s") == |head| + 5 + |S| + 1
    ensures Slice(head + (" min " + S + " s"), |head| + 5, |head| + 5 + |S|) == S
  {
    var text := head + (" min " + S + " s");
    NumeralAvoids(S);
    FindAfter(head + " ", "min", " " + S + " s");
    assert head + " " + "min" + (" " + S + " s") == text;
    var before := head + " min " + S + " ";
    FindAfter(before, "s", "");
    assert before + "s" + "" == text;
    assert text[|head| + 5..|head| + 5 + |S|] == S;
  }

  /** "min" occurs in "<head> min z s". */
  lemma MinutesMarker(head: string, S: string)
    ensures Contains(head + (" min " + S + " s"), "min")
  {
    var text := head + (" min " + S + " s");
    var k := |head| + 1;
    assert text[k..k + 3] == "min";
    assert OccursAt(text, "min", k);
  }

  /** Where "h" and the hours and minutes numerals sit in "x h y<tail>". */
  lemma HoursField(X: string, M: string, tail: string)
    requires 'h' !in X
    ensures Find(X + " h " + M + tail, "h") == |X| + 1
    ensures Slice(X + " h " + M + tail, 0, |X|) == X
    ensures Slice(X + " h " + M + tail, |X| + 3, |X| + 3 + |M|) == M
  {
    var text := X + " h " + M + tail;
    FindAfter(X + " ", "h", " " + M + tail);
    assert X + " " + "h" + (" " + M + tail) == text;
    assert text[..|X|] == X;
    assert text[|X| + 3..|X| + 3 + |M|] == M;
  }

  /** Parsing "y min z s" gives y * 60 + z. */
  lemma RenderedWithoutHours(text: string, minutes: nat, seconds: nat)
    requires text == Render(None, minutes, seconds)
    ensures DurationInSeconds(text) == Ok(Some(minutes * 60 + seconds))
  {
    var M, S := ShowNat(minutes), ShowNat(seconds);
    var tail := " min " + S + " s";
    assert text == M + tail;
    NumeralAvoids(M);
    NumeralAvoids(S);
    var m, z := |M| + 1, |M| + 5 + |S| + 1;
    assert Find(text, "min") == m && Find(text, "s") == z && Slice(text, m + 4, z - 1) == S by {
      SecondsField(M, S);
    }
    assert Find(text, "h") == -1 by {
      FindAbsent(text, "h");
    }
    assert Slice(text, 0, m - 1) == M by {
      assert text[..|M|] == M;
    }
    assert ParseInt(M) == Some(minutes) && ParseInt(S) == Some(seconds) by {
      ParseShowNat(minutes);
      ParseShowNat(seconds);
    }
    DurationWithoutHours(text, m, z, minutes, seconds);
  }

  /** Parsing "x h y min z s" gives y * 60 + z: the hours are parsed but never counted. */
  lemma RenderedWithHours(text: string, hours: nat, minutes: nat, seconds: nat)
    requires text == Render(Some(hours), minutes, seconds)
    ensures DurationInSeconds(text) == Ok(Some(minutes * 60 + seconds))
  {
    var X, M, S := ShowNat(hours), ShowNat(minutes), ShowNat(seconds);
    var head := X + " h " + M;
    var tail := " min " + S + " s";
    assert text == head + tail;
    var h, m, z := |X| + 1, |head| + 1, |head| + 5 + |S| + 1;
    assert Find(text, "min") == m && Find(text, "s") == z && Slice(text, m + 4, z - 1) == S by {
      NumeralAvoids(X);
      NumeralAvoids(M);
      SecondsField(head, S);
    }
    assert Find(text, "h") == h && Slice(text, 0, h - 1) == X && Slice(text, h + 2, m - 1) == M by {
      NumeralAvoids(X);
      HoursField(X, M, tail);
    }
    assert ParseInt(X) == Some(hours) && ParseInt(M) == Some(minutes) && ParseInt(S) == Some(seconds) by {
      ParseShowNat(hours);
      ParseShowNat(minutes);
      ParseShowNat(seconds);
    }
    DurationWithHours(text, h, m, z, hours, minutes, seconds);
  }

  /** Parsing the site's own rendering gives minutes * 60 + seconds, whatever the hours. */
  lemma RenderedDuration(hours: Option<nat>, minutes: nat, seconds: nat)
    ensures DurationInSeconds(Render(hours, minutes, seconds)) == Ok(Some(minutes * 60 + seconds))
  {
    if hours.Some? {
      RenderedWithHours(Render(hours, minutes, seconds), hours.value, minutes, seconds);
    } else {
      RenderedWithoutHours(Render(hours, minutes, seconds), minutes, seconds);
    }
  }

  /** "5 min 30 s" is how the site renders 5 minutes 30 seconds. */
  lemma MinutesExampleRendering(text: string)
    requires text == "5 min 30 s"
    ensures text == Render(None, 5, 30)
  {
    assert ShowNat(5) == "5" && ShowNat(30) == "30";
  }

  /** Five and a half minutes in the site's format. The text is a parameter
      fixed by the precondition, rather than a literal in the conclusion, so
      that the solver does not try to unfold the whole parse on a constant. */
  lemma MinutesExample(text: string)
    requires text == "5 min 30 s"
    ensures DurationInSeconds(text) == Ok(Some(330))
  {
    MinutesExampleRendering(text);
    RenderedWithoutHours(text, 5, 30);
  }

  /** "1 h 5 min 0 s" is how the site renders 1 hour 5 minutes 0 seconds. */
  lemma HoursExampleRendering(text: string)
    requires text == "1 h 5 min 0 s"
    ensures text == Render(Some(1), 5, 0)
  {
    assert ShowNat(1) == "1" && ShowNat(5) == "5" && ShowNat(0) == "0";
  }

  /** One hour five minutes in the site's format: the code reports 300
      seconds, not the 3900 the hour would add. The text is a parameter, as
      in MinutesExample. */
  lemma HoursExample(text: string)
    requires text == "1 h 5 min 0 s"
    ensures DurationInSeconds(text) == Ok(Some(300))
  {
    HoursExampleRendering(text);
    RenderedWithHours(text, 1, 5, 0);
  }

  /** Although they do not count, the hours must still be an integer: an hours
      field that int() rejects makes the whole parse raise, even when minutes
      and seconds are well formed. */
  lemma MalformedHoursRaise(hoursText: string, minutes: nat, seconds: nat)
    requires ParseInt(hoursText).None?
    requires 'h' !in hoursText
    ensures DurationInSeconds(hoursText + " h " + ShowNat(minutes) + (" min " + ShowNat(seconds) + " s"))
            == Err(ValueError(hoursText))
  {
    var M, S := ShowNat(minutes), ShowNat(seconds);
    var head := hoursText + " h " + M;
    var tail := " min " + S + " s";
    var text := head + tail;
    assert Find(text, "min") != -1 by {
      MinutesMarker(head, S);
      FindIsFirst(text, "min");
    }
    assert Find(text, "h") == |hoursText| + 1 && Slice(text, 0, |hoursText|) == hoursText by {
      HoursField(hoursText, M, tail);
    }
    DurationHoursRejected(text);
  }

  /** Text that does not mention minutes is "not recorded", never an error. */
  lemma NotRecorded()
    ensures DurationInSeconds("no time recorded") == Ok(None)
  {
    var text := "no time recorded";
    assert !Contains(text, "min") by {
      forall i | 0 <= i <= |text| ensures !OccursAt(text, "min", i) {
        if i + 3 <= |text| {
          assert text[i..i + 3][0] == text[i] && text[i..i + 3][1] == text[i + 1];
        }
      }
    }
    NotRecordedExactlyWithoutMinutes(text);
  }
}
