/** The report's date text and file name: `current_date_time` formats the
    clock's fields as `%d-%02d-%02d %02d:%02d:%02d`, and `save_result` derives
    `report_<date>.json` with spaces turned into `_` and colons into `.`.
    The clock is a parameter: only the formatting of given fields is modelled. */
module Report {
  import opened Wrappers
  import opened Text

  /** The fields `current_date_time` reads from `time.Now()`. */
  datatype DateTime = DateTime(year: int, month: int, day: int, hour: int, minute: int, second: int)

  /** The ranges a `time.Time` value guarantees for its fields. */
  predicate ValidFields(t: DateTime) {
    && 1 <= t.month <= 12
    && 1 <= t.day <= 31
    && 0 <= t.hour <= 23
    && 0 <= t.minute <= 59
    && 0 <= t.second <= 59
  }

  // ---------------------------------------------------------------------------
  // Decimal text
  // ---------------------------------------------------------------------------

  function DigitChar(d: nat): (c: char)
    requires d < 10
    ensures '0' <= c <= '9'
  {
    ('0' as int + d) as char
  }

  function DigitValue(c: char): (v: Option<nat>)
    ensures v.Some? <==> '0' <= c <= '9'
    ensures v.Some? ==> v.value < 10 && DigitChar(v.value) == c
  {
    if '0' <= c <= '9' then Some(c as int - '0' as int) else None
  }

  predicate IsDigits(s: string) {
    forall i :: 0 <= i < |s| ==> '0' <= s[i] <= '9'
  }

  /** `%d` of a non-negative number: decimal digits, no leading zero. */
  function NatToDecimal(n: nat): (s: string)
    ensures |s| > 0 && IsDigits(s)
    decreases n
  {
    if n < 10 then [DigitChar(n)] else NatToDecimal(n / 10) + [DigitChar(n % 10)]
  }

  /** `%d` of any number: a minus sign before the digits of a negative one. */
  function IntToDecimal(n: int): (s: string)
    ensures |s| > 0
    ensures forall i :: 0 <= i < |s| ==> s[i] == '-' || '0' <= s[i] <= '9'
  {
    if n < 0 then "-" + NatToDecimal(-n) else NatToDecimal(n)
  }

  /** `%02d` of a number below one hundred: exactly two digits. */
  function Pad2(n: nat): (s: string)
    requires n < 100
    ensures |s| == 2 && IsDigits(s)
  {
    [DigitChar(n / 10), DigitChar(n % 10)]
  }

  /** Value of a non-empty run of decimal digits. */
  function ParseDigits(s: string): Option<nat>
    decreases |s|
  {
    if |s| == 0 then None
    else
      match DigitValue(s[|s| - 1])
      case None => None
      case Some(d) =>
        if |s| == 1 then Some(d)
        else
          match ParseDigits(s[..|s| - 1])
          case None => None
          case Some(v) => Some(v * 10 + d)
  }

  /** Value of a decimal text with an optional leading minus sign. */
  function ParseInt(s: string): Option<int> {
    if |s| > 0 && s[0] == '-' then
      match ParseDigits(s[1..])
      case None => None
      case Some(v) => Some(-(v as int))
    else
      match ParseDigits(s)
      case None => None
      case Some(v) => Some(v as int)
  }

  lemma {:induction false} ParseNatToDecimal(n: nat)
    ensures ParseDigits(NatToDecimal(n)) == Some(n)
    decreases n
  {
    if n >= 10 {
      var s := NatToDecimal(n);
      ParseNatToDecimal(n / 10);
      assert s[..|s| - 1] == NatToDecimal(n / 10);
    }
  }

  lemma {:induction false} ParseMinus(d: string, v: nat)
    requires ParseDigits(d) == Some(v)
    ensures ParseInt("-" + d) == Some(-(v as int))
  {
    var s := "-" + d;
    assert s[0] == '-' && s[1..] == d;
  }

  lemma {:induction false} ParseUnsigned(d: string, v: nat)
    requires |d| > 0 && IsDigits(d) && ParseDigits(d) == Some(v)
    ensures ParseInt(d) == Some(v)
  {
    assert '0' <= d[0] <= '9';
  }

  /** Reading back the decimal text of a number gives the number. */
  lemma {:induction false} ParseIntToDecimal(n: int)
    ensures ParseInt(IntToDecimal(n)) == Some(n)
  {
    if n < 0 {
      ParseNatToDecimal(-n);
      ParseMinus(NatToDecimal(-n), -n);
    } else {
      ParseNatToDecimal(n);
      ParseUnsigned(NatToDecimal(n), n);
    }
  }

  lemma {:induction false} ParsePad2(n: nat)
    requires n < 100
    ensures ParseDigits(Pad2(n)) == Some(n)
  {
    assert Pad2(n)[..1] == [DigitChar(n / 10)];
  }

  // ---------------------------------------------------------------------------
  // Date text
  // ---------------------------------------------------------------------------

  /** The fixed-width part of the date text after the year, `-MM-DD hh:mm:ss`,
      with `space` and `colon` standing for the two kinds of separator. */
  function Clock(t: DateTime, space: char, colon: char): (s: string)
    requires ValidFields(t)
    ensures |s| == 15
  {
    var mo, d, h, mi, se := Pad2(t.month), Pad2(t.day), Pad2(t.hour), Pad2(t.minute), Pad2(t.second);
    ['-', mo[0], mo[1], '-', d[0], d[1], space, h[0], h[1], colon, mi[0], mi[1], colon, se[0], se[1]]
  }

  /** `current_date_time` applied to given clock fields: the year in `%d`,
      then the other fields in `%02d` with `-`, ` ` and `:` between them. */
  function FormatDateTime(t: DateTime): (s: string)
    requires ValidFields(t)
    ensures |s| == |IntToDecimal(t.year)| + 15
    ensures s[..|s| - 15] == IntToDecimal(t.year)
  {
    var y := IntToDecimal(t.year);
    var s := y + Clock(t, ' ', ':');
    assert s[..|y|] == y;
    s
  }

  /** Inverse of `FormatDateTime`: the last fifteen characters hold the
      fixed-width fields and separators, everything before them the year. */
  function ParseDateTime(s: string): Option<DateTime> {
    if |s| < 16 then None
    else
      var k := |s| - 15;
      if s[k] != '-' || s[k + 3] != '-' || s[k + 6] != ' ' || s[k + 9] != ':' || s[k + 12] != ':' then None
      else
        match (ParseInt(s[..k]), ParseDigits(s[k + 1..k + 3]), ParseDigits(s[k + 4..k + 6]),
               ParseDigits(s[k + 7..k + 9]), ParseDigits(s[k + 10..k + 12]), ParseDigits(s[k + 13..]))
        case (Some(y), Some(mo), Some(d), Some(h), Some(mi), Some(se)) => Some(DateTime(y, mo, d, h, mi, se))
        case _ => None
  }

  /** The fields of the fixed-width part sit at fixed offsets. */
  lemma {:induction false} ClockLayout(t: DateTime, space: char, colon: char)
    requires ValidFields(t)
    ensures var c := Clock(t, space, colon);
      && c[0] == '-' && c[1..3] == Pad2(t.month)
      && c[3] == '-' && c[4..6] == Pad2(t.day)
      && c[6] == space && c[7..9] == Pad2(t.hour)
      && c[9] == colon && c[10..12] == Pad2(t.minute)
      && c[12] == colon && c[13..] == Pad2(t.second)
  {
    var c := Clock(t, space, colon);
    assert c[1..3] == [c[1], c[2]] && c[4..6] == [c[4], c[5]] && c[7..9] == [c[7], c[8]];
    assert c[10..12] == [c[10], c[11]] && c[13..] == [c[13], c[14]];
  }

  /** The pieces of a formatted date sit at fixed offsets from its end. */
  lemma {:induction false} FormatLayout(t: DateTime)
    requires ValidFields(t)
    ensures var s := FormatDateTime(t); var k := |s| - 15;
      && s[..k] == IntToDecimal(t.year)
      && s[k] == '-' && s[k + 1..k + 3] == Pad2(t.month)
      && s[k + 3] == '-' && s[k + 4..k + 6] == Pad2(t.day)
      && s[k + 6] == ' ' && s[k + 7..k + 9] == Pad2(t.hour)
      && s[k + 9] == ':' && s[k + 10..k + 12] == Pad2(t.minute)
      && s[k + 12] == ':' && s[k + 13..] == Pad2(t.second)
  {
    var y := IntToDecimal(t.year);
    var c := Clock(t, ' ', ':');
    var s := FormatDateTime(t);
    var k := |y|;
    ClockLayout(t, ' ', ':');
    assert s[..k] == y && s[k..] == c;
    assert s[k + 1..k + 3] == c[1..3] && s[k + 4..k + 6] == c[4..6] && s[k + 7..k + 9] == c[7..9];
    assert s[k + 10..k + 12] == c[10..12] && s[k + 13..] == c[13..];
  }

  /** The date text determines the clock fields it was made from. */
  lemma {:induction false} ParseFormatDateTime(t: DateTime)
    requires ValidFields(t)
    ensures ParseDateTime(FormatDateTime(t)) == Some(t)
  {
    FormatLayout(t);
    ParseIntToDecimal(t.year);
    ParsePad2(t.month);
    ParsePad2(t.day);
    ParsePad2(t.hour);
    ParsePad2(t.minute);
    ParsePad2(t.second);
  }

  // ---------------------------------------------------------------------------
  // Report file name
  // ---------------------------------------------------------------------------

  /** The character a date character becomes in the file name. */
  function FileNameChar(c: char): char {
    if c == ' ' then '_' else if c == ':' then '.' else c
  }

  /** The two replacements of `save_result` rename the date character by
      character. */
  lemma {:induction false} RenameChars(date: string)
    ensures var d := ReplaceAll(ReplaceAll(date, " ", "_"), ":", ".");
      |d| == |date| && forall i :: 0 <= i < |date| ==> d[i] == FileNameChar(date[i])
  {
    ReplaceAllOneChar(date, ' ', '_');
    ReplaceAllOneChar(ReplaceChar(date, ' ', '_'), ':', '.');
  }

  /** `report_`, a renamed date and `.json`, laid out. */
  lemma {:induction false} NameLayout(date: string, d: string)
    requires |d| == |date| && forall i :: 0 <= i < |date| ==> d[i] == FileNameChar(date[i])
    ensures var name := "report_" + d + ".json";
      && |name| == |date| + 12
      && name[..7] == "report_" && name[|name| - 5..] == ".json"
      && (forall i :: 0 <= i < |date| ==> name[7 + i] == FileNameChar(date[i]))
      && (forall i :: 0 <= i < |name| ==> name[i] != ' ' && name[i] != ':')
  {
    var name := "report_" + d + ".json";
    assert forall i :: 0 <= i < |d| ==> name[7 + i] == d[i];
  }

  /** The file name `save_result` derives from a report's date. */
  function ReportFileName(date: string): (name: string)
    ensures |name| == |date| + 12
    ensures name[..7] == "report_" && name[|name| - 5..] == ".json"
    ensures forall i :: 0 <= i < |date| ==> name[7 + i] == FileNameChar(date[i])
    ensures forall i :: 0 <= i < |name| ==> name[i] != ' ' && name[i] != ':'
  {
    var d := ReplaceAll(ReplaceAll(date, " ", "_"), ":", ".");
    RenameChars(date);
    NameLayout(date, d);
    "report_" + d + ".json"
  }

  /** Renaming the fixed-width part turns its space into `_` and its colons
      into `.`. */
  lemma {:induction false} ClockRenamed(t: DateTime)
    requires ValidFields(t)
    ensures forall j :: 0 <= j < 15 ==> Clock(t, '_', '.')[j] == FileNameChar(Clock(t, ' ', ':')[j])
  {
  }

  /** Renaming a text that is `y` followed by `tail`, where `y` holds no
      space or colon and `tail'` is `tail` renamed. */
  lemma {:induction false} RenameSplit(y: string, tail: string, tail': string)
    requires forall j :: 0 <= j < |y| ==> y[j] != ' ' && y[j] != ':'
    requires |tail'| == |tail| && forall j :: 0 <= j < |tail| ==> tail'[j] == FileNameChar(tail[j])
    ensures ReportFileName(y + tail) == "report_" + (y + tail') + ".json"
  {
    var date := y + tail;
    var name := ReportFileName(date);
    var expected := "report_" + (y + tail') + ".json";
    forall i | 0 <= i < |name|
      ensures name[i] == expected[i]
    {
      if 7 <= i < 7 + |y| {
        assert date[i - 7] == y[i - 7];
      } else if 7 + |y| <= i < 7 + |date| {
        assert date[i - 7] == tail[i - 7 - |y|];
      }
    }
  }

  /** For a formatted date the name reads `report_Y-MM-DD_hh.mm.ss.json`. */
  lemma {:induction false} ReportFileNameOfDate(t: DateTime)
    requires ValidFields(t)
    ensures ReportFileName(FormatDateTime(t)) == "report_" + (IntToDecimal(t.year) + Clock(t, '_', '.')) + ".json"
  {
    ClockRenamed(t);
    RenameSplit(IntToDecimal(t.year), Clock(t, ' ', ':'), Clock(t, '_', '.'));
  }

  /** Different clock readings never share a report file name. */
  lemma {:induction false} ReportFileNameInjective(t1: DateTime, t2: DateTime)
    requires ValidFields(t1) && ValidFields(t2)
    requires ReportFileName(FormatDateTime(t1)) == ReportFileName(FormatDateTime(t2))
    ensures t1 == t2
  {
    var d1, d2 := FormatDateTime(t1), FormatDateTime(t2);
    assert |d1| == |d2|;
    forall i | 0 <= i < |d1|
      ensures d1[i] == d2[i]
    {
      FormatChars(t1, i);
      FormatChars(t2, i);
      assert FileNameChar(d1[i]) == ReportFileName(d1)[7 + i] == ReportFileName(d2)[7 + i] == FileNameChar(d2[i]);
    }
    assert d1 == d2;
    ParseFormatDateTime(t1);
    ParseFormatDateTime(t2);
  }

  /** A formatted date holds only digits, `-`, a space and colons. */
  lemma {:induction false} FormatChars(t: DateTime, i: int)
    requires ValidFields(t) && 0 <= i < |FormatDateTime(t)|
    ensures var c := FormatDateTime(t)[i]; c == '-' || c == ' ' || c == ':' || '0' <= c <= '9'
  {
    FormatLayout(t);
    var s := FormatDateTime(t);
    var k := |s| - 15;
    if i < k {
      assert s[i] == s[..k][i];
    } else {
      assert s[i] == s[k..][i - k];
      assert s[k + 1..k + 3] == s[k..][1..3] && s[k + 4..k + 6] == s[k..][4..6];
      assert s[k + 7..k + 9] == s[k..][7..9] && s[k + 10..k + 12] == s[k..][10..12];
      assert s[k + 13..] == s[k..][13..];
    }
  }
}
