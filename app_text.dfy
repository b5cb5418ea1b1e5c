/** The browser front end's pure logic (static/app.js): wrapping the card
    text, the audio player's time display, the prayer-time helpers, the
    choice of the next prayer, and the recitation audio URL. */
module AppText {
  import opened Common
  import opened Wrapping

  // ---------------------------------------------------------------------------
  // wrapText
  // ---------------------------------------------------------------------------

  /** `wrapText`: the same greedy loop as the server's, over the pieces of
      `text.split(' ')`, which may be empty (doubled, leading or trailing
      spaces). No line is empty, a line wider than `maxWidth` has no space in
      it, and when no piece is empty the lines joined with spaces are the
      text itself. */
  method WrapText(measure: string -> real, text: string, maxWidth: real) returns (lines: seq<string>)
    ensures lines == Wrap(measure, maxWidth, Split(text, ' '))
    ensures forall l :: l in lines ==> l != ""
    ensures forall l :: l in lines && measure(l) > maxWidth ==> ' ' !in l
    ensures (forall w :: w in Split(text, ' ') ==> w != "") ==> JoinLines(lines) == text
  {
    var words := Split(text, ' ');
    lines := [];
    var cur := "";
    for i := 0 to |words|
      invariant WrapFrom(measure, maxWidth, words[i..], lines, cur) == Wrap(measure, maxWidth, words)
    {
      var word := words[i];
      assert words[i..][0] == word && words[i..][1..] == words[i + 1..];
      var test := if cur != "" then cur + " " + word else word;
      if measure(test) > maxWidth && cur != "" {
        lines := lines + [cur];
        cur := word;
      } else {
        cur := test;
      }
    }
    if cur != "" {
      lines := lines + [cur];
    }
    WrapProperties(measure, maxWidth, words);
    JoinSplit(text, ' ');
  }

  // ---------------------------------------------------------------------------
  // parseTime, formatTime, formatPrayerTime
  // ---------------------------------------------------------------------------

  /** JavaScript's `Number(s)` on the strings these helpers meet: "" is 0, a
      string of decimal digits is its value, and anything else is NaN
      (`None`). */
  function JsNumber(s: string): (n: Option<int>)
    ensures n.Some? <==> AllDigits(s)
    ensures n.Some? ==> n.value >= 0 && n.value == DecimalValue(s)
    ensures s == "" ==> n == Some(0)
  {
    if AllDigits(s) then Some(DecimalValue(s)) else None
  }

  /** `parseTime` on the ':'-separated fields: hours * 60 + minutes from the
      first two; NaN (`None`) when either is not a number or the minutes
      field is missing. */
  function TimeOf(fields: seq<string>): Option<int>
  {
    if |fields| < 2 then None
    else
      var hours := JsNumber(fields[0]);
      var minutes := JsNumber(fields[1]);
      if hours.Some? && minutes.Some? then Some(hours.value * 60 + minutes.value) else None
  }

  /** `parseTime("H:M")`. */
  function ParseTime(timeStr: string): Option<int>
  {
    TimeOf(Split(timeStr, ':'))
  }

  /** No digit string holds a ':'. */
  lemma DigitsHaveNoColon(s: string)
    requires AllDigits(s)
    ensures ':' !in s
  {
  }

  /** Two pieces without a ':' around one ':' split back into the two pieces. */
  lemma SplitColonPair(h: string, m: string)
    requires ':' !in h && ':' !in m
    ensures Split(h + ":" + m, ':') == [h, m]
  {
    var parts := [h, m];
    assert parts[1..] == [m];
    assert Join(parts, ':') == h + ":" + m;
    SplitJoin(parts, ':');
  }

  /** Two digit-string fields give hours * 60 + minutes. */
  lemma DigitFields(h: string, m: string)
    requires AllDigits(h) && AllDigits(m)
    ensures TimeOf([h, m]) == Some(DecimalValue(h) * 60 + DecimalValue(m))
  {
    assert JsNumber(h) == Some(DecimalValue(h));
    assert JsNumber(m) == Some(DecimalValue(m));
  }

  /** Two digit strings around a ':' parse to hours * 60 + minutes. */
  lemma ParseDigits(h: string, m: string)
    requires AllDigits(h) && AllDigits(m)
    ensures ParseTime(h + ":" + m) == Some(DecimalValue(h) * 60 + DecimalValue(m))
  {
    DigitsHaveNoColon(h);
    DigitsHaveNoColon(m);
    SplitColonPair(h, m);
    DigitFields(h, m);
  }

  /** Whole minutes and the remaining whole seconds of a time in seconds:
      `Math.floor(seconds / 60)` and `Math.floor(seconds % 60)`. */
  function Clock(seconds: real): (t: (nat, nat))
    requires seconds >= 0.0
    ensures t.1 < 60
    ensures t.0 * 60 + t.1 == seconds.Floor
  {
    var mins := (seconds / 60.0).Floor;
    var rest := seconds - 60.0 * mins as real;
    assert 0.0 <= rest < 60.0;
    var secs := rest.Floor;
    assert (60 * mins) as real + rest == seconds;
    (mins, secs)
  }

  /** Minutes, ':' and the seconds padded to two digits. */
  function Display(mins: nat, secs: nat): string
  {
    NatToString(mins) + ":" + PadStart(NatToString(secs), 2, '0')
  }

  /** Seconds below 60 pad to exactly two digits denoting them. */
  lemma PaddedSeconds(secs: nat)
    requires secs < 60
    ensures var p := PadStart(NatToString(secs), 2, '0');
      |p| == 2 && AllDigits(p) && DecimalValue(p) == secs
  {
    NatToStringShort(secs);
    ZeroPadValue(NatToString(secs), 2);
  }

  /** A display with seconds below 60 reads back as mins * 60 + secs. */
  lemma DisplayParses(mins: nat, secs: nat)
    requires secs < 60
    ensures ParseTime(Display(mins, secs)) == Some(mins * 60 + secs)
  {
    var h, p := NatToString(mins), PadStart(NatToString(secs), 2, '0');
    PaddedSeconds(secs);
    assert Display(mins, secs) == h + ":" + p;
    ParseValues(h, p, mins, secs);
  }

  /** `ParseDigits` for digit strings of known value. */
  lemma ParseValues(h: string, m: string, hv: nat, mv: nat)
    requires AllDigits(h) && AllDigits(m) && DecimalValue(h) == hv && DecimalValue(m) == mv
    ensures ParseTime(h + ":" + m) == Some(hv * 60 + mv)
  {
    ParseDigits(h, m);
  }

  /** A display is the minutes' shortest spelling, a ':', and the seconds as
      exactly two digits. */
  lemma DisplayShape(mins: nat, secs: nat)
    requires secs < 60
    ensures var d := Display(mins, secs);
      |d| >= 4 && d[..|d| - 3] == NatToString(mins) && d[|d| - 3] == ':' &&
      AllDigits(d[|d| - 2..]) && DecimalValue(d[|d| - 2..]) == secs
  {
    var h, p := NatToString(mins), PadStart(NatToString(secs), 2, '0');
    PaddedSeconds(secs);
    assert Display(mins, secs) == h + ":" + p;
    TimeParts(h, p, secs);
  }

  /** The parts of "<h>:<p>" for a two-digit `p` denoting `v`. */
  lemma TimeParts(h: string, p: string, v: nat)
    requires |p| == 2 && AllDigits(p) && DecimalValue(p) == v
    ensures var d := h + ":" + p;
      |d| >= 3 && d[..|d| - 3] == h && d[|d| - 3] == ':' &&
      AllDigits(d[|d| - 2..]) && DecimalValue(d[|d| - 2..]) == v
  {
    var d := h + ":" + p;
    assert d[..|h|] == h;
    assert d[|h| + 1..] == p;
  }

  /** The special case for 0 prints what the general case would. */
  lemma ZeroDisplay()
    ensures Display(0, 0) == "0:00"
  {
    assert DigitChar(0) == '0';
    var zero := NatToString(0);
    assert zero == ['0'];
    assert PadStart(zero, 2, '0') == PadStart(['0', '0'], 2, '0');
    assert PadStart(['0', '0'], 2, '0') == ['0', '0'];
    assert "0:00" == ['0'] + [':'] + ['0', '0'];
  }

  /** The clock's minutes and seconds are the whole seconds divided by 60
      and their remainder. */
  lemma ClockDivMod(seconds: real)
    requires seconds >= 0.0
    ensures seconds.Floor >= 0
    ensures Clock(seconds) == (seconds.Floor / 60, seconds.Floor % 60)
  {
    var t := Clock(seconds);
    var f := seconds.Floor;
    assert f == t.0 * 60 + t.1 && 0 <= t.1 < 60;
    assert f / 60 == t.0 && f % 60 == t.1;
  }

  /** `formatTime`: "0:00" for 0, otherwise minutes, ':' and seconds padded
      to two digits. */
  function FormatTime(seconds: real): string
    requires seconds >= 0.0
  {
    if seconds == 0.0 then "0:00"
    else
      var t := Clock(seconds);
      Display(t.0, t.1)
  }

  /** `formatTime` prints every time, 0 included, as the display of its
      whole minutes and remaining seconds. */
  lemma FormatTimeIsDisplay(seconds: real)
    requires seconds >= 0.0
    ensures seconds.Floor >= 0
    ensures FormatTime(seconds) == Display(seconds.Floor / 60, seconds.Floor % 60)
  {
    ClockDivMod(seconds);
    if seconds == 0.0 {
      ZeroDisplay();
      assert seconds.Floor == 0;
    }
  }

  /** The display of a time reads back, through `parseTime`'s rule, as its
      whole number of seconds. It is the shortest spelling of the whole
      minutes, a ':', and the remaining seconds as exactly two digits. */
  lemma FormatTimeReadsBack(seconds: real)
    requires seconds >= 0.0
    ensures ParseTime(FormatTime(seconds)) == Some(seconds.Floor)
    ensures seconds.Floor >= 0
    ensures var d := FormatTime(seconds);
      |d| >= 4 && d[..|d| - 3] == NatToString(seconds.Floor / 60) && d[|d| - 3] == ':' &&
      AllDigits(d[|d| - 2..]) && DecimalValue(d[|d| - 2..]) == seconds.Floor % 60
  {
    FormatTimeIsDisplay(seconds);
    var f := seconds.Floor;
    DisplayParses(f / 60, f % 60);
    DisplayShape(f / 60, f % 60);
  }

  const Undefined := "undefined"

  /** `formatPrayerTime`: the first two ':'-separated fields joined by ':';
      a missing minutes field prints as "undefined". */
  function FormatPrayerTime(timeStr: string): (r: string)
    ensures var fields := Split(timeStr, ':');
      Split(r, ':') == [fields[0], if |fields| >= 2 then fields[1] else Undefined]
  {
    var fields := Split(timeStr, ':');
    var minutes := if |fields| >= 2 then fields[1] else Undefined;
    var r := fields[0] + ":" + minutes;
    assert r == Join([fields[0], minutes], ':') by {
      assert [fields[0], minutes][1..] == [minutes];
    }
    SplitJoin([fields[0], minutes], ':');
    r
  }

  /** Formatting a prayer time twice is formatting it once. */
  lemma FormatPrayerTimeIdempotent(timeStr: string)
    ensures FormatPrayerTime(FormatPrayerTime(timeStr)) == FormatPrayerTime(timeStr)
  {
    var once := FormatPrayerTime(timeStr);
    var fields := Split(once, ':');
    assert |fields| == 2;
    assert once == fields[0] + ":" + fields[1];
  }

  /** Formatting keeps exactly what parsing reads, so the displayed time and
      the time used to pick the next prayer agree. */
  lemma FormatKeepsParse(timeStr: string)
    ensures ParseTime(FormatPrayerTime(timeStr)) == ParseTime(timeStr)
  {
    assert !AllDigits(Undefined) by {
      assert !IsDigit(Undefined[0]);
    }
  }

  // ---------------------------------------------------------------------------
  // Next prayer
  // ---------------------------------------------------------------------------

  /** A prayer and its time in minutes after midnight; `None` stands for the
      NaN an unparsable time gives. */
  datatype Prayer = Prayer(name: string, minutes: Option<int>)

  /** Whether the prayer is strictly later than `now` (a NaN time never is). */
  predicate After(p: Prayer, now: int)
  {
    p.minutes.Some? && p.minutes.value > now
  }

  /** Prayer `j` is the next one after `now`: it is later than `now`, no
      later prayer comes sooner, and none listed before it comes as soon. */
  predicate SoonestAfter(prayers: seq<Prayer>, now: int, j: int)
  {
    0 <= j < |prayers| && After(prayers[j], now) &&
    (forall i :: 0 <= i < |prayers| && After(prayers[i], now) ==>
       prayers[j].minutes.value <= prayers[i].minutes.value) &&
    (forall i :: 0 <= i < j && After(prayers[i], now) ==>
       prayers[j].minutes.value < prayers[i].minutes.value)
  }

  /** `next` is the name to highlight: the soonest later prayer's, or "Fajr"
      (tomorrow's) when no prayer is later than `now`. */
  predicate IsNext(prayers: seq<Prayer>, now: int, next: string)
  {
    ((forall i :: 0 <= i < |prayers| ==> !After(prayers[i], now)) ==> next == "Fajr") &&
    ((exists i :: 0 <= i < |prayers| && After(prayers[i], now)) ==>
       exists j :: 0 <= j < |prayers| && SoonestAfter(prayers, now, j) && next == prayers[j].name)
  }

  /** At most one prayer is the soonest later one, so `IsNext` names one
      prayer. */
  lemma SoonestAfterUnique(prayers: seq<Prayer>, now: int, j: int, k: int)
    requires SoonestAfter(prayers, now, j) && SoonestAfter(prayers, now, k)
    ensures j == k
  {
  }

  /** The loop of `highlightNextPrayer`: the prayer with the smallest
      positive difference to `now`, the earliest listed one on a tie (the
      comparison is strict), and "Fajr" when no prayer is later than `now`.
      The prayer names are the fixed, non-empty keys of the timings. */
  method NextPrayer(prayers: seq<Prayer>, now: int) returns (next: string)
    requires forall i :: 0 <= i < |prayers| ==> prayers[i].name != ""
    ensures IsNext(prayers, now, next)
  {
    var nextPrayer: Option<string> := None;
    var minDiff: Option<int> := None;  // None is Infinity
    ghost var best := 0;
    for i := 0 to |prayers|
      invariant nextPrayer.None? <==> minDiff.None?
      invariant minDiff.None? <==> forall q :: 0 <= q < i ==> !After(prayers[q], now)
      invariant minDiff.Some? ==>
        best < i && After(prayers[best], now) && nextPrayer == Some(prayers[best].name) &&
        minDiff.value == prayers[best].minutes.value - now &&
        (forall q :: 0 <= q < i && After(prayers[q], now) ==>
           prayers[best].minutes.value <= prayers[q].minutes.value) &&
        (forall q :: 0 <= q < best && After(prayers[q], now) ==>
           prayers[best].minutes.value < prayers[q].minutes.value)
    {
      var p := prayers[i];
      if p.minutes.Some? && p.minutes.value > now {
        var diff := p.minutes.value - now;
        if minDiff.None? || diff < minDiff.value {
          minDiff := Some(diff);
          nextPrayer := Some(p.name);
          best := i;
        }
      }
    }
    if nextPrayer.None? || nextPrayer.value == "" {
      next := "Fajr";
    } else {
      next := nextPrayer.value;
    }
  }

  /** The six timings the prayer API returns, as "HH:MM" strings. */
  datatype Timings = Timings(fajr: string, sunrise: string, dhuhr: string, asr: string, maghrib: string, isha: string)

  function PrayerList(t: Timings): (ps: seq<Prayer>)
    ensures |ps| == 6 && forall i :: 0 <= i < 6 ==> ps[i].name != ""
  {
    [Prayer("Fajr", ParseTime(t.fajr)), Prayer("Sunrise", ParseTime(t.sunrise)),
     Prayer("Dhuhr", ParseTime(t.dhuhr)), Prayer("Asr", ParseTime(t.asr)),
     Prayer("Maghrib", ParseTime(t.maghrib)), Prayer("Isha", ParseTime(t.isha))]
  }

  /** `highlightNextPrayer`'s choice for the current time in minutes after
      midnight: one of the six names, and "Fajr" (tomorrow's) once every
      time of today has passed. */
  method HighlightNextPrayer(t: Timings, nowMinutes: int) returns (next: string)
    ensures next in {"Fajr", "Sunrise", "Dhuhr", "Asr", "Maghrib", "Isha"}
    ensures IsNext(PrayerList(t), nowMinutes, next)
  {
    var ps := PrayerList(t);
    next := NextPrayer(ps, nowMinutes);
  }

  // ---------------------------------------------------------------------------
  // Recitation audio URL
  // ---------------------------------------------------------------------------

  const AudioBase := "https://everyayah.com/data/"

  /** `String(n).padStart(3, '0')`: at least three digits denoting `n`
      (never truncated), exactly three below 1000. */
  function Pad3(n: nat): (s: string)
    ensures |s| >= 3 && AllDigits(s) && DecimalValue(s) == n
    ensures n < 1000 ==> |s| == 3
  {
    ZeroPadValue(NatToString(n), 3);
    NatToStringShort(n);
    PadStart(NatToString(n), 3, '0')
  }

  /** The everyayah.com URL of one verse's recitation, as `changeReciter` and
      `loadAyahAudio` build it. */
  function AudioUrl(reciter: string, surah: nat, ayah: nat): string
  {
    AudioBase + reciter + "/" + Pad3(surah) + Pad3(ayah) + ".mp3"
  }

  /** The four pieces of a concatenation are its slices. */
  lemma Pieces(p: string, a: string, b: string, q: string)
    ensures (p + a + b + q)[..|p|] == p
    ensures (p + a + b + q)[|p|..|p| + |a|] == a
    ensures (p + a + b + q)[|p| + |a|..|p| + |a| + |b|] == b
    ensures (p + a + b + q)[|p| + |a| + |b|..] == q
  {
  }

  /** The URL starts with the site's data path and the reciter's folder,
      ends in ".mp3", and in between spells the surah and the verse number
      as three-digit numbers (for the numbers below 1000 the Quran has). */
  lemma AudioUrlShape(reciter: string, surah: nat, ayah: nat)
    requires surah < 1000 && ayah < 1000
    ensures var url := AudioUrl(reciter, surah, ayah);
      var n := |AudioBase + reciter + "/"|;
      |url| == n + 10 &&
      url[..n] == AudioBase + reciter + "/" &&
      url[n + 6..] == ".mp3" &&
      AllDigits(url[n..n + 3]) && DecimalValue(url[n..n + 3]) == surah &&
      AllDigits(url[n + 3..n + 6]) && DecimalValue(url[n + 3..n + 6]) == ayah
  {
    Pieces(AudioBase + reciter + "/", Pad3(surah), Pad3(ayah), ".mp3");
  }

  /** The URL of a reciter names one surah and verse: different verses never
      share a file. */
  lemma AudioUrlIdentifiesVerse(reciter: string, s1: nat, a1: nat, s2: nat, a2: nat)
    requires s1 < 1000 && a1 < 1000 && s2 < 1000 && a2 < 1000
    requires AudioUrl(reciter, s1, a1) == AudioUrl(reciter, s2, a2)
    ensures s1 == s2 && a1 == a2
  {
    AudioUrlShape(reciter, s1, a1);
    AudioUrlShape(reciter, s2, a2);
  }
}
