/** The dated folder a copied file goes into: `year/month/day`, from its
    modification date. */
module Dates {
  import opened Text

  /** A calendar date as `datetime` produces it. */
  datatype Date = Date(year: int, month: int, day: int)

  /** The ranges `datetime` guarantees for its year, month and day. */
  predicate ValidDate(d: Date)
  {
    1 <= d.year <= 9999 && 1 <= d.month <= 12 && 1 <= d.day <= 31
  }

  /** The three folder names below the target root. */
  datatype DateDir = DateDir(year: string, month: string, day: string)

  /** `strftime('%Y')`, `strftime('%m')` and `strftime('%d')`: four, two and
      two zero-padded digits, each reading back as the date's own field. */
  function DirKey(d: Date): (k: DateDir)
    requires ValidDate(d)
    ensures |k.year| == 4 && |k.month| == 2 && |k.day| == 2
    ensures IsDigits(k.year) && IsDigits(k.month) && IsDigits(k.day)
    ensures DecimalValue(k.year) == d.year && DecimalValue(k.month) == d.month && DecimalValue(k.day) == d.day
  {
    DateDir(PadDecimal(d.year, 4), PadDecimal(d.month, 2), PadDecimal(d.day, 2))
  }

  /** Different dates go to different folders, and the same date always to the same one. */
  lemma DirKeyInjective(a: Date, b: Date)
    requires ValidDate(a) && ValidDate(b)
    ensures DirKey(a) == DirKey(b) <==> a == b
  {
  }

  /** 4 May 2023 goes to `2023/05/04`. */
  lemma DirKeyExample()
    ensures DirKey(Date(2023, 5, 4)) == DateDir("2023", "05", "04")
  {
    assert PadDecimal(2, 1) == "2";
    assert PadDecimal(20, 2) == "20";
    assert PadDecimal(202, 3) == "202";
    assert PadDecimal(2023, 4) == "2023";
    assert PadDecimal(0, 1) == "0";
    assert PadDecimal(5, 2) == "05";
    assert PadDecimal(4, 2) == "04";
  }
}
