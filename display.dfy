/** The value rules of the form: how the preview shows the activity type and
    the time, which amount inputs are accepted, the exported file name, and
    which dates the signature blocks show. */
module Display {
  import opened Report

  /** The select option whose choice switches to a free-text activity type. */
  const OtherSpecify: string := "Other(Specify)"

  /** The activity type as the preview shows it: the free text when the type is
      Other(Specify), the chosen type otherwise, with a placeholder for empty text. */
  function ActivityTypeLabel(activityType: string, customActivityType: string): (shown: string)
    ensures shown != ""
    ensures activityType == OtherSpecify && customActivityType != "" ==> shown == customActivityType
    ensures activityType == OtherSpecify && customActivityType == "" ==> shown == "Other"
    ensures activityType != OtherSpecify && activityType != "" ==> shown == activityType
    ensures activityType == "" ==> shown == "N/A"
    ensures shown == OtherSpecify ==> customActivityType == OtherSpecify
  {
    if activityType == OtherSpecify then
      (if customActivityType != "" then customActivityType else "Other")
    else
      (if activityType != "" then activityType else "N/A")
  }

  /** The free-text type matters only when Other(Specify) is chosen. */
  lemma CustomTypeIgnoredUnlessOther(activityType: string, custom1: string, custom2: string)
    requires activityType != OtherSpecify
    ensures ActivityTypeLabel(activityType, custom1) == ActivityTypeLabel(activityType, custom2)
  {
  }

  /** The preview's time cell: the time or the HH:MM placeholder, a space, the period. */
  function TimeDisplay(time: string, timePeriod: string): (r: string)
    ensures |r| > |timePeriod| && r[|r| - |timePeriod| - 1..] == " " + timePeriod
    ensures r[..|r| - |timePeriod| - 1] != ""
    ensures time != "" ==> r[..|r| - |timePeriod| - 1] == time
    ensures time == "" ==> r[..|r| - |timePeriod| - 1] == "HH:MM"
  {
    (if time != "" then time else "HH:MM") + " " + timePeriod
  }

  /** For a fixed period, the cell shows which time was typed: two typed times
      that display alike are equal. */
  lemma TimeDisplayDeterminesTime(time: string, time': string, timePeriod: string)
    requires time != "" && time' != ""
    requires TimeDisplay(time, timePeriod) == TimeDisplay(time', timePeriod)
    ensures time == time'
  {
    var r := TimeDisplay(time, timePeriod);
    assert time == r[..|r| - |timePeriod| - 1];
  }

  /** The placeholder is indistinguishable from a typed "HH:MM". */
  lemma TimePlaceholderAmbiguous(timePeriod: string)
    ensures TimeDisplay("", timePeriod) == TimeDisplay("HH:MM", timePeriod)
  {
  }

  predicate IsDigit(c: char)
  {
    '0' <= c <= '9'
  }

  /** The amount filter `^\d*$`: nothing but ASCII digits (the empty string included). */
  predicate AllDigits(s: string)
  {
    forall i :: 0 <= i < |s| ==> IsDigit(s[i])
  }

  /** `Number(s)` for a digit string: its decimal value, 0 for the empty string. */
  function DecimalValue(s: string): nat
    requires AllDigits(s)
  {
    if s == [] then 0
    else DecimalValue(s[..|s| - 1]) * 10 + (s[|s| - 1] - '0') as nat
  }

  function DigitChar(d: nat): (c: char)
    requires d < 10
    ensures IsDigit(c) && (c - '0') as nat == d
  {
    '0' + d as char
  }

  /** How the amount field shows a stored amount (`String(n)`): shortest decimal form. */
  function ToDecimal(n: nat): (s: string)
    ensures AllDigits(s) && s != []
    ensures |s| > 1 ==> s[0] != '0'
  {
    if n < 10 then [DigitChar(n)] else ToDecimal(n / 10) + [DigitChar(n % 10)]
  }

  /** An edit of the amount field: a digit-only input is taken as its number,
      any other input is ignored and the amount stays. */
  function EditAmount(input: string, amount: nat): nat
  {
    if AllDigits(input) then DecimalValue(input) else amount
  }

  /** An edit is accepted exactly when the input is digits only; the empty
      input sets the amount to 0; a rejected input leaves the amount as it was. */
  lemma EditAmountRule(input: string, amount: nat)
    ensures AllDigits(input) ==> EditAmount(input, amount) == DecimalValue(input)
    ensures !AllDigits(input) ==> EditAmount(input, amount) == amount
    ensures EditAmount("", amount) == 0
  {
  }

  lemma {:induction false} DecimalOfToDecimal(n: nat)
    ensures DecimalValue(ToDecimal(n)) == n
  {
    var s := ToDecimal(n);
    if n >= 10 {
      DecimalOfToDecimal(n / 10);
      assert s[..|s| - 1] == ToDecimal(n / 10);
    }
  }

  /** Re-entering the amount the field shows gives back that same amount. */
  lemma AmountRoundTrip(n: nat, amount: nat)
    ensures EditAmount(ToDecimal(n), amount) == n
  {
    DecimalOfToDecimal(n);
  }

  lemma {:induction false} DecimalOfZeroPrefix(s: string)
    requires AllDigits(s)
    ensures AllDigits("0" + s) && DecimalValue("0" + s) == DecimalValue(s)
  {
    var t := "0" + s;
    if s != [] {
      assert t[..|t| - 1] == "0" + s[..|s| - 1];
      DecimalOfZeroPrefix(s[..|s| - 1]);
    }
  }

  /** Leading zeros are accepted and do not change the amount. */
  lemma LeadingZeroIgnored(s: string, amount: nat)
    requires AllDigits(s)
    ensures EditAmount("0" + s, amount) == EditAmount(s, amount)
  {
    DecimalOfZeroPrefix(s);
  }

  /** The name of the exported document. */
  function ExportFileName(year1: string, year2: string): (name: string)
    ensures |name| == |year1| + |year2| + 21
    ensures name[..16] == "Activity_Report_" && name[|name| - 4..] == ".pdf"
    ensures name[16..16 + |year1|] == year1 && name[16 + |year1|] == '_'
    ensures name[17 + |year1|..|name| - 4] == year2
  {
    "Activity_Report_" + year1 + "_" + year2 + ".pdf"
  }

  lemma UnderscoreAfter(a: string, b: string, a': string, b': string)
    requires |a| < |a'|
    ensures (a + "_" + b)[|a|] == '_' && (a' + "_" + b')[|a|] == a'[|a|]
  {
  }

  lemma {:induction false} SplitAtFirstUnderscore(a: string, b: string, a': string, b': string)
    requires '_' !in a && '_' !in a'
    requires a + "_" + b == a' + "_" + b'
    ensures a == a' && b == b'
  {
    var s := a + "_" + b;
    if |a| < |a'| {
      UnderscoreAfter(a, b, a', b');
      assert false;
    } else if |a'| < |a| {
      UnderscoreAfter(a', b', a, b);
      assert false;
    } else {
      assert a == s[..|a|] == a';
      assert b == s[|a| + 1..] == b';
    }
  }

  /** When the first year has no underscore, the file name determines both years. */
  lemma FileNameDeterminesYears(year1: string, year2: string, year1': string, year2': string)
    requires '_' !in year1 && '_' !in year1'
    requires ExportFileName(year1, year2) == ExportFileName(year1', year2')
    ensures year1 == year1' && year2 == year2'
  {
    var n, n' := ExportFileName(year1, year2), ExportFileName(year1', year2');
    assert n[16..|n| - 4] == year1 + "_" + year2;
    assert n'[16..|n'| - 4] == year1' + "_" + year2';
    SplitAtFirstUnderscore(year1, year2, year1', year2');
  }

  /** Without that condition, different years can give the same file name. */
  lemma FileNameAmbiguous()
    ensures ExportFileName("1_2", "3") == ExportFileName("1", "2_3")
  {
  }

  /** A signature block of the preview: the signatory's name and the date shown under it. */
  datatype Signature = Signature(name: string, date: string)

  /** The four signature blocks of the preview. Every block shows the teacher's
      date; the head, coordinator and principal dates are entered but not shown. */
  function SignatureBlocks(r: ActivityReport): (blocks: seq<Signature>)
    ensures |blocks| == 4
    ensures forall i :: 0 <= i < 4 ==> blocks[i].date == r.teacherDate
    ensures blocks[0].name == r.teacherName && blocks[1].name == r.headName
    ensures blocks[2].name == r.iqacCoordinator && blocks[3].name == r.icPrincipalName
  {
    [Signature(r.teacherName, r.teacherDate), Signature(r.headName, r.teacherDate),
     Signature(r.iqacCoordinator, r.teacherDate), Signature(r.icPrincipalName, r.teacherDate)]
  }

  /** Editing the head, coordinator or principal date leaves the preview's signature blocks unchanged. */
  lemma OtherDatesNotShown(r: ActivityReport, d1: string, d2: string, d3: string)
    ensures SignatureBlocks(r.(headDate := d1, iqacDate := d2, icPrincipalDate := d3)) == SignatureBlocks(r)
  {
  }

  /** What the preview of a blank form `r` shows: an empty documentation map,
      which renders no checklist rows (`Checklist.NoDocumentationNoRows`), the
      N/A type, the time placeholder with AM, and the file name with both years empty. */
  lemma BlankFormPreview(r: ActivityReport)
    requires r == DefaultReport
    ensures |r.documentation| == 0
    ensures ActivityTypeLabel(r.activityType, r.customActivityType) == "N/A"
    ensures TimeDisplay(r.time, r.timePeriod) == "HH:MM AM"
    ensures ExportFileName(r.year1, r.year2) == "Activity_Report__.pdf"
  {
  }
}
