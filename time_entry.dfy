/**
 * The time typed into the timer's edit field: the text `startEditing` puts
 * there, the reformatting applied on every keystroke, and the patterns and
 * clamping `finishEditing` reads it back with.
 */
module TimeEntry {
  import opened Wrappers
  import opened Decimal
  import opened JsText

  /** The two strings a matched entry is read from: minutes then seconds. */
  datatype Fields = Fields(minutes: string, seconds: string)

  /** `v` matches `/^(\d{1,2}):(\d{2})$/` with the groups of `f`. */
  predicate ColonEntry(v: string, f: Fields) {
    v == f.minutes + ":" + f.seconds &&
    1 <= |f.minutes| <= 2 && |f.seconds| == 2 && AllDigits(f.minutes) && AllDigits(f.seconds)
  }

  /** `v` matches `/^(\d{3,4})$/` and is split into a one- or two-digit minute and two seconds digits as `f`. */
  predicate PlainEntry(v: string, f: Fields) {
    AllDigits(v) &&
    ((|v| == 3 && f == Fields(v[..1], v[1..])) || (|v| == 4 && f == Fields(v[..2], v[2..])))
  }

  /** The pattern matching of `finishEditing` on the trimmed text. */
  function ParseEntry(v: string): (r: Option<Fields>)
    ensures r.Some? ==> ColonEntry(v, r.value) || PlainEntry(v, r.value)
  {
    if |v| == 4 && v[1] == ':' && AllDigits(v[..1]) && AllDigits(v[2..]) then
      assert v == v[..1] + ":" + v[2..];
      Some(Fields(v[..1], v[2..]))
    else if |v| == 5 && v[2] == ':' && AllDigits(v[..2]) && AllDigits(v[3..]) then
      assert v == v[..2] + ":" + v[3..];
      Some(Fields(v[..2], v[3..]))
    else if |v| == 3 && AllDigits(v) then Some(Fields(v[..1], v[1..]))
    else if |v| == 4 && AllDigits(v) then Some(Fields(v[..2], v[2..]))
    else None
  }

  /** Every text of one of the accepted shapes is matched, with its own groups. */
  lemma ParseEntryComplete(v: string, f: Fields)
    requires ColonEntry(v, f) || PlainEntry(v, f)
    ensures ParseEntry(v) == Some(f)
  {
    if ColonEntry(v, f) {
      var k := |f.minutes|;
      assert v[k] == ':';
      assert v[..k] == f.minutes && v[k + 1..] == f.seconds;
      assert !IsDigit(v[k]);
    }
  }

  /** A text is accepted exactly when it has one of the three shapes. */
  lemma ParseEntryRejects(v: string)
    requires forall f :: !ColonEntry(v, f) && !PlainEntry(v, f)
    ensures ParseEntry(v) == None
  {
    if ParseEntry(v).Some? {
      assert false;
    }
  }

  /** `v` clamped to `0..hi`. */
  function Clamp(v: int, hi: int): (r: int)
    requires hi >= 0
    ensures 0 <= r <= hi
    ensures 0 <= v <= hi ==> r == v
  {
    var low := if v < 0 then 0 else v;
    if low > hi then hi else low
  }

  /**
   * The seconds `finishEditing` sets for matched groups: each read with
   * `parseInt(…) || 0`, minutes clamped to 0..99 and seconds to 0..59, and a
   * total of 0 replaced by one minute.
   */
  function EntrySeconds(f: Fields): (t: int)
    ensures 1 <= t <= 5999
  {
    ClampedSeconds(OrElse(ParseInt(f.minutes), 0), OrElse(ParseInt(f.seconds), 0))
  }

  /** The time set for minutes `m` and seconds `s` once read: both clamped, and a total of 0 replaced by one minute. */
  function ClampedSeconds(m: int, s: int): (t: int)
    ensures 1 <= t <= 5999
    ensures 0 <= m <= 99 && 0 <= s <= 59 ==> t == if m * 60 + s == 0 then 60 else m * 60 + s
  {
    var total := Clamp(m, 99) * 60 + Clamp(s, 59);
    if total == 0 then 60 else total
  }

  /** For digit groups the reading is plain: the clamped values, and a minute for "00:00". */
  lemma EntrySecondsOfDigits(f: Fields)
    requires f.minutes != [] && AllDigits(f.minutes) && f.seconds != [] && AllDigits(f.seconds)
    ensures EntrySeconds(f) == ClampedSeconds(Value(f.minutes), Value(f.seconds))
  {
    ParseIntDigits(f.minutes);
    ParseIntDigits(f.seconds);
  }

  /** What `finishEditing` does with the field's text: the new time, or `None` to keep the old one. */
  function EnteredSeconds(text: string): (r: Option<int>)
    ensures r.Some? ==> 1 <= r.value <= 5999
    ensures r.Some? <==> ParseEntry(Trim(text)).Some?
  {
    match ParseEntry(Trim(text))
    case None => None
    case Some(f) => Some(EntrySeconds(f))
  }

  /** `x.toString().padStart(2, '0')`. */
  function TwoDigits(x: int): string {
    PadStart(IntText(x), 2, '0')
  }

  /** The text `startEditing` writes: `Math.floor(t / 60)` and `t % 60`, each padded to two characters. */
  function EditText(t: int): string {
    TwoDigits(t / 60) + ":" + TwoDigits(Rem(t, 60))
  }

  lemma TwoDigitsOfSmall(x: int)
    requires 0 <= x < 100
    ensures TwoDigits(x) == Padded(x, 2) && |TwoDigits(x)| == 2
    ensures AllDigits(TwoDigits(x)) && Value(TwoDigits(x)) == x
  {
    PaddedLength(x, 2);
    PaddedValue(x, 2);
  }

  /** Digits around a colon have no white space to trim. */
  lemma TrimClock(a: string, b: string)
    requires AllDigits(a) && AllDigits(b)
    ensures Trim(a + ":" + b) == a + ":" + b
  {
    var text := a + ":" + b;
    forall i | 0 <= i < |text|
      ensures !IsSpace(text[i])
    {
      if i < |a| {
        assert text[i] == a[i];
      } else if i > |a| {
        assert text[i] == b[i - |a| - 1];
      }
    }
    TrimNoSpace(text);
  }

  /** Text of the `m:ss` or `mm:ss` shape is matched group by group. */
  lemma ClockEntry(a: string, b: string)
    requires 1 <= |a| <= 2 && |b| == 2 && AllDigits(a) && AllDigits(b)
    ensures ParseEntry(Trim(a + ":" + b)) == Some(Fields(a, b))
  {
    var text := a + ":" + b;
    assert Trim(text) == text by {
      TrimClock(a, b);
    }
    assert ParseEntry(text) == Some(Fields(a, b)) by {
      assert ColonEntry(text, Fields(a, b));
      ParseEntryComplete(text, Fields(a, b));
    }
  }

  lemma EnteredOfMatch(text: string, f: Fields)
    requires ParseEntry(Trim(text)) == Some(f)
    ensures EnteredSeconds(text) == Some(EntrySeconds(f))
  {
  }

  /** The `mm:ss` text of a minute below 100 and a second below 60 reads back as that time, or one minute for "00:00". */
  lemma TwoDigitClock(m: int, s: int)
    requires 0 <= m < 100 && 0 <= s < 60
    ensures EnteredSeconds(TwoDigits(m) + ":" + TwoDigits(s)) == Some(if m * 60 + s == 0 then 60 else m * 60 + s)
  {
    TwoDigitsOfSmall(m);
    TwoDigitsOfSmall(s);
    ClockEntry(TwoDigits(m), TwoDigits(s));
    ClockSeconds(TwoDigits(m) + ":" + TwoDigits(s), TwoDigits(m), TwoDigits(s), m, s);
  }

  /** A text matched as minutes `m` of at most two digits and seconds `s` below 60 reads back as `m * 60 + s` seconds, or one minute for zero. */
  lemma ClockSeconds(text: string, a: string, b: string, m: int, s: int)
    requires ParseEntry(Trim(text)) == Some(Fields(a, b))
    requires 1 <= |a| <= 2 && b != [] && AllDigits(a) && AllDigits(b)
    requires Value(a) == m && Value(b) == s && s < 60
    ensures EnteredSeconds(text) == Some(if m * 60 + s == 0 then 60 else m * 60 + s)
  {
    assert EntrySeconds(Fields(a, b)) == if m * 60 + s == 0 then 60 else m * 60 + s by {
      TwoDigitBound(a);
      EntrySecondsOfDigits(Fields(a, b));
    }
    EnteredOfMatch(text, Fields(a, b));
  }

  lemma TwoDigitBound(a: string)
    requires |a| <= 2 && AllDigits(a)
    ensures Value(a) <= 99
  {
    ValueBound(a);
    assert Pow10(|a|) <= 100;
  }

  /** The text `startEditing` shows for a time of 1 to 5999 seconds reads back as that time. */
  lemma EditTextRoundTrip(t: int)
    requires 1 <= t <= 5999
    ensures EnteredSeconds(EditText(t)) == Some(t)
  {
    ClockReadBack(t, t / 60, Rem(t, 60));
  }

  /** A time of 1 to 5999 seconds is `m` minutes below 100 and `s` seconds below 60, whose `mm:ss` text reads back as it. */
  lemma ClockReadBack(t: int, m: int, s: int)
    requires 1 <= t <= 5999 && m == t / 60 && s == Rem(t, 60)
    ensures EnteredSeconds(TwoDigits(m) + ":" + TwoDigits(s)) == Some(t)
  {
    assert 0 <= m < 100 && 0 <= s < 60 && m * 60 + s == t;
    TwoDigitClock(m, s);
    assert (if m * 60 + s == 0 then 60 else m * 60 + s) == t;
  }

  /** A zero time is shown as "00:00", which reads back as one minute. */
  lemma EditTextZero(t: int)
    requires t == 0
    ensures EditText(t) == "00:00" && EnteredSeconds(EditText(t)) == Some(60)
  {
    ZeroShown(t);
    ZeroReadBack(t);
  }

  lemma ZeroShown(t: int)
    requires t == 0
    ensures EditText(t) == "00:00"
  {
    TwoDigitsZero(t / 60);
    TwoDigitsZero(Rem(t, 60));
  }

  lemma ZeroReadBack(t: int)
    requires t == 0
    ensures EnteredSeconds(EditText(t)) == Some(60)
  {
    TwoDigitClock(t / 60, Rem(t, 60));
  }

  lemma TwoDigitsZero(x: int)
    requires x == 0
    ensures TwoDigits(x) == "00"
  {
    assert TwoDigits(0) == "00";
  }

  /** From 100 minutes on the minute field has three digits and the text shown is rejected. */
  lemma EditTextTooLong(t: int)
    requires t >= 6000
    ensures EnteredSeconds(EditText(t)) == None
  {
    var m := t / 60;
    assert TwoDigits(m) == Digits(m) && AllDigits(Digits(m)) && |Digits(m)| >= 3 by {
      DigitsLength(m);
      DigitsAreDigits(m);
    }
    TwoDigitsOfSmall(Rem(t, 60));
    LongMinutesRejected(TwoDigits(m), TwoDigits(Rem(t, 60)));
  }

  /** Minutes of three digits or more before the ':' match neither pattern. */
  lemma LongMinutesRejected(a: string, b: string)
    requires AllDigits(a) && |a| >= 3 && AllDigits(b) && |b| == 2
    ensures EnteredSeconds(a + ":" + b) == None
  {
    var text := a + ":" + b;
    TrimClock(a, b);
    assert text[2] == a[2] && text[|a|] == ':';
    assert !IsDigit(text[|a|]);
  }

  /** A negative time is shown with a '-' and is rejected. */
  lemma EditTextNegative(t: int)
    requires t < 0
    ensures EnteredSeconds(EditText(t)) == None
  {
    var m := t / 60;
    assert EditText(t) != [] && EditText(t)[0] == '-' by {
      assert m < 0;
      assert IntText(m)[0] == '-';
      assert |IntText(m)| >= 2;
      assert TwoDigits(m) == IntText(m);
    }
    SignRejected(EditText(t));
  }

  /** A field whose text starts with '-' is rejected. */
  lemma SignRejected(text: string)
    requires text != [] && text[0] == '-'
    ensures EnteredSeconds(text) == None
  {
    assert TrimStart(text) == text;
    TrimEndParts(text);
    var r := Trim(text);
    assert r != [] && r[0] == '-';
    assert !IsDigit(r[0]);
  }

  // ---- The keystroke formatter ----

  /** `value.replace(/\D/g, '')`: the decimal digits of `s`, in order. */
  function OnlyDigits(s: string): (r: string)
    ensures AllDigits(r) && |r| <= |s|
  {
    if s == [] then []
    else (if IsDigit(s[0]) then [s[0]] else []) + OnlyDigits(s[1..])
  }

  /** At most the first four of the digits typed. */
  function FirstFour(d: string): (r: string)
    ensures |r| <= 4 && |r| <= |d|
    ensures r == d[..|r|]
    ensures |d| >= 4 ==> |r| == 4
    ensures |d| <= 4 ==> r == d
  {
    if |d| > 4 then d[..4] else d
  }

  /** The `input` listener: the first four digits typed, with ':' after the first two once there are two. */
  function FormatInput(raw: string): (r: string)
    ensures |r| <= 5
  {
    Grouped(FirstFour(OnlyDigits(raw)))
  }

  /** `d` with ':' after its first two characters, once it has two. */
  function Grouped(d: string): (r: string)
    ensures |r| == if |d| >= 2 then |d| + 1 else |d|
  {
    if |d| >= 2 then d[..2] + ":" + d[2..] else d
  }

  /** Three digits or fewer, grouped, match neither pattern. */
  lemma GroupedShort(d: string)
    requires AllDigits(d) && |d| <= 3
    ensures EnteredSeconds(Grouped(d)) == None
  {
    var r := Grouped(d);
    if |d| >= 2 {
      TrimClock(d[..2], d[2..]);
      assert r[1] == d[1] && r[2] == ':';
      assert !IsDigit(r[2]);
    } else {
      TrimNoSpace(d);
    }
  }

  /** Four digits, grouped, read as minutes and seconds. */
  lemma GroupedFull(d: string)
    requires AllDigits(d) && |d| == 4
    ensures EnteredSeconds(Grouped(d)) == Some(EntrySeconds(Fields(d[..2], d[2..])))
  {
    ClockEntry(d[..2], d[2..]);
    EnteredOfMatch(Grouped(d), Fields(d[..2], d[2..]));
  }

  lemma {:induction false} OnlyDigitsConcat(a: string, b: string)
    ensures OnlyDigits(a + b) == OnlyDigits(a) + OnlyDigits(b)
  {
    if a != [] {
      assert (a + b)[1..] == a[1..] + b;
      OnlyDigitsConcat(a[1..], b);
    } else {
      assert a + b == b;
    }
  }

  lemma {:induction false} OnlyDigitsOfDigits(s: string)
    requires AllDigits(s)
    ensures OnlyDigits(s) == s
  {
    if s != [] {
      OnlyDigitsOfDigits(s[1..]);
      assert s == [s[0]] + s[1..];
    }
  }

  /**
   * The formatted text keeps exactly the first four digits typed, has ':' at
   * index 2 when there are three or more characters, and digits everywhere else.
   */
  lemma FormatInputShape(raw: string)
    ensures OnlyDigits(FormatInput(raw)) == FirstFour(OnlyDigits(raw))
    ensures |FormatInput(raw)| >= 3 ==> FormatInput(raw)[2] == ':'
    ensures |FormatInput(raw)| == if |OnlyDigits(raw)| >= 2 then |FirstFour(OnlyDigits(raw))| + 1 else |OnlyDigits(raw)|
    ensures forall i :: 0 <= i < |FormatInput(raw)| && FormatInput(raw)[i] != ':' ==> IsDigit(FormatInput(raw)[i])
  {
    var d := FirstFour(OnlyDigits(raw));
    var r := FormatInput(raw);
    if |d| >= 2 {
      OnlyDigitsOfDigits(d[..2]);
      OnlyDigitsOfDigits(d[2..]);
      OnlyDigitsConcat(d[..2] + ":", d[2..]);
      OnlyDigitsConcat(d[..2], ":");
      assert OnlyDigits(":") == [];
      assert d[..2] + d[2..] == d;
      forall i | 0 <= i < |r| && r[i] != ':'
        ensures IsDigit(r[i])
      {
        if i < 2 {
          assert r[i] == d[i];
        } else {
          assert r[i] == d[i - 1];
        }
      }
    } else {
      OnlyDigitsOfDigits(d);
    }
  }

  /** Reformatting formatted text changes nothing. */
  lemma FormatInputIdempotent(raw: string)
    ensures FormatInput(FormatInput(raw)) == FormatInput(raw)
  {
    FormatInputShape(raw);
    var d := FirstFour(OnlyDigits(raw));
    assert FirstFour(OnlyDigits(FormatInput(raw))) == d;
  }

  /**
   * Typed text survives `finishEditing` exactly when at least four digits
   * were typed: with fewer the ':' sits where neither pattern expects it.
   * Four digits read as `mm:ss`.
   */
  lemma FormattedEntry(raw: string)
    ensures EnteredSeconds(FormatInput(raw)).Some? <==> |OnlyDigits(raw)| >= 4
    ensures |OnlyDigits(raw)| >= 4 ==>
      var d := OnlyDigits(raw);
      EnteredSeconds(FormatInput(raw)) == Some(EntrySeconds(Fields(d[..2], d[2..4])))
  {
    GroupedDigits(OnlyDigits(raw));
  }

  /** The same for any string of digits in place of the digits typed. */
  lemma GroupedDigits(digits: string)
    requires AllDigits(digits)
    ensures EnteredSeconds(Grouped(FirstFour(digits))).Some? <==> |digits| >= 4
    ensures |digits| >= 4 ==> EnteredSeconds(Grouped(FirstFour(digits))) == Some(EntrySeconds(Fields(digits[..2], digits[2..4])))
  {
    if |digits| >= 4 {
      GroupedFour(digits);
    } else {
      GroupedShort(digits);
    }
  }

  lemma GroupedFour(digits: string)
    requires AllDigits(digits) && |digits| >= 4
    ensures EnteredSeconds(Grouped(FirstFour(digits))) == Some(EntrySeconds(Fields(digits[..2], digits[2..4])))
  {
    var d := FirstFour(digits);
    assert d[..2] == digits[..2] && d[2..] == digits[2..4];
    GroupedFull(d);
  }
}
