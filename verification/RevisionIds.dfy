/**
  Sequential migration ids: the current head's number plus one, printed with at least three
  digits.  A head that is not a number starts the count again at one.
*/
module RevisionIds {
  import opened Wrappers
  import opened Text

  /** Decimal digits of `n`, none for zero. */
  function Digits(n: nat): string {
    if n == 0 then "" else Digits(n / 10) + [DigitChar(n % 10)]
  }

  function DigitChar(d: nat): (c: char)
    requires d < 10
    ensures IsDigit(c) && DigitValue(c) == d && (c == '0' <==> d == 0)
  {
    ('0' as int + d) as char
  }

  function DigitValue(c: char): nat
    requires IsDigit(c)
  {
    c as int - '0' as int
  }

  function Zeros(n: nat): string {
    seq(n, _ => '0')
  }

  function PadLeft(s: string, width: nat): (r: string)
    ensures |r| >= width && (|s| >= width ==> r == s)
  {
    Zeros(Missing(s, width)) + s
  }

  function Missing(s: string, width: nat): nat {
    if |s| >= width then 0 else width - |s|
  }

  /** f"{n:03d}": the sign counts towards the width. */
  function Format(n: int): string {
    if n >= 0 then PadLeft(Digits(n), 3) else "-" + PadLeft(Digits(-n), 2)
  }

  function LStripZeros(s: string): string {
    if s != "" && s[0] == '0' then LStripZeros(s[1..]) else s
  }

  /** What int() takes after the sign: digits, with single underscores between them. */
  predicate IsMagnitude(s: string) {
    var n := |s|;
    n > 0 && IsDigit(s[n - 1]) &&
    (n == 1 || IsMagnitude(s[..n - 1]) || (s[n - 2] == '_' && IsMagnitude(s[..n - 2])))
  }

  /** The number that digits stand for; anything else is skipped. */
  function ValueOf(s: string): nat {
    if s == "" then 0
    else
      var front, last := ValueOf(s[..|s| - 1]), s[|s| - 1];
      if IsDigit(last) then 10 * front + DigitValue(last) else front
  }

  /** int(text) for ASCII text without surrounding white space; None is ValueError. */
  function ParseInt(s: string): Option<int> {
    if IsMagnitude(s) then Some(ValueOf(s))
    else if s != "" && s[0] in "+-" && IsMagnitude(s[1..]) then
      var magnitude: int := ValueOf(s[1..]);
      Some(if s[0] == '-' then -magnitude else magnitude)
    else None
  }

  /** The new revision id for a current head. */
  function NextRevision(head: Option<string>): string {
    match head
    case None => Format(1)
    case Some(text) =>
      var last := ParseInt(LStripZeros(text));
      if last.None? then Format(1) else Format(last.value + 1)
  }

  // ------------------------------------------------------------------ printing and parsing

  lemma {:induction false} ValueUndoesDigits(n: nat)
    ensures n > 0 ==> Numeric(Digits(n)) && Digits(n)[0] != '0'
    ensures ValueOf(Digits(n)) == n
  {
    if n > 0 {
      ValueUndoesDigits(n / 10);
      assert Digits(n)[..|Digits(n)| - 1] == Digits(n / 10);
    }
  }

  lemma {:induction false} ZerosAddNothing(zeros: nat, s: string)
    ensures ValueOf(Zeros(zeros) + s) == ValueOf(s)
    decreases |s|, zeros
  {
    var padded := Zeros(zeros) + s;
    if s != "" {
      assert padded[..|padded| - 1] == Zeros(zeros) + s[..|s| - 1];
      ZerosAddNothing(zeros, s[..|s| - 1]);
    } else if zeros > 0 {
      assert padded[..|padded| - 1] == Zeros(zeros - 1) + s;
      ZerosAddNothing(zeros - 1, s);
    }
  }

  lemma {:induction false} StripUndoesZeros(zeros: nat, s: string)
    requires s == "" || s[0] != '0'
    ensures LStripZeros(Zeros(zeros) + s) == s
  {
    if zeros > 0 {
      assert (Zeros(zeros) + s)[1..] == Zeros(zeros - 1) + s;
      StripUndoesZeros(zeros - 1, s);
    } else {
      assert Zeros(0) + s == s;
    }
  }

  /** The number a head stands for: none, "000" and what int() refuses all stand for zero. */
  function HeadNumber(head: Option<string>): int {
    if head.None? then 0
    else
      var last := ParseInt(LStripZeros(head.value));
      if last.None? then 0 else last.value
  }

  /**
    Round trip for every number, beyond 999 and below 0 too: a printed id stands for the
    number it was printed from.
  */
  lemma ParseUndoesFormat(n: int)
    ensures ParseInt(LStripZeros(Format(n))) == if n == 0 then None else Some(n)
    ensures HeadNumber(Some(Format(n))) == n
  {
    if n >= 0 {
      PositivePrintParses(n, 3);
    } else {
      NegativePrintParses(-n, 2);
    }
  }

  lemma PositivePrintParses(n: nat, width: nat)
    ensures ParseInt(LStripZeros(PadLeft(Digits(n), width))) == if n == 0 then None else Some(n)
  {
    ValueUndoesDigits(n);
    StripUndoesZeros(Missing(Digits(n), width), Digits(n));
    PlainDigitsParse(Digits(n));
  }

  lemma NegativePrintParses(n: nat, width: nat)
    requires n > 0
    ensures ParseInt(LStripZeros("-" + PadLeft(Digits(n), width))) == Some(0 - n)
  {
    ValueUndoesDigits(n);
    ZerosAddNothing(Missing(Digits(n), width), Digits(n));
    MinusDigitsParse(PadLeft(Digits(n), width));
  }

  lemma {:induction false} NumericIsAMagnitude(s: string)
    requires Numeric(s)
    ensures IsMagnitude(s)
  {
    if |s| > 1 { NumericIsAMagnitude(s[..|s| - 1]); }
  }

  lemma {:induction false} MagnitudeStartsWithADigit(s: string)
    requires IsMagnitude(s)
    ensures IsDigit(s[0])
  {
    if |s| > 1 {
      MagnitudeStartsWithADigit(if IsMagnitude(s[..|s| - 1]) then s[..|s| - 1] else s[..|s| - 2]);
    }
  }

  lemma PlainDigitsParse(s: string)
    ensures Numeric(s) ==> ParseInt(s) == Some(ValueOf(s))
  {
    if Numeric(s) { NumericIsAMagnitude(s); }
  }

  /** lstrip leaves a minus alone, and the zeros behind it. */
  lemma MinusDigitsParse(s: string)
    requires Numeric(s)
    ensures ParseInt(LStripZeros("-" + s)) == Some(0 - ValueOf(s))
  {
    assert ("-" + s)[1..] == s;
    NumericIsAMagnitude(s);
    if IsMagnitude("-" + s) { MagnitudeStartsWithADigit("-" + s); }
  }

  /** The shape of an id: at least three digits, and no more zeros in front than that takes. */
  lemma IdsAreThreeDigits(n: nat)
    requires n > 0
    ensures Numeric(Format(n)) && |Format(n)| >= 3 && (|Format(n)| > 3 ==> Format(n)[0] != '0')
  {
    ValueUndoesDigits(n);
    PaddingIsNumeric(Digits(n), 3);
  }

  lemma PaddingIsNumeric(s: string, width: nat)
    requires Numeric(s)
    ensures Numeric(PadLeft(s, width)) && (|PadLeft(s, width)| > width ==> PadLeft(s, width) == s)
  {
    var zeros := Zeros(Missing(s, width));
    assert forall i :: 0 <= i < |zeros + s| ==> IsDigit((zeros + s)[i]);
  }

  /** What else int() takes: a plus, and single underscores between digits; not one at the end, and not nothing. */
  lemma SignsAndUnderscores(s: string, t: string)
    requires Numeric(s) && Numeric(t)
    ensures ParseInt("+" + s) == Some(ValueOf(s))
    ensures ParseInt(s + "_" + t) == Some(ValueOf(s + t))
    ensures ParseInt(s + "_").None? && ParseInt("").None?
  {
    assert ("+" + s)[1..] == s;
    NumericIsAMagnitude(s);
    if IsMagnitude("+" + s) { MagnitudeStartsWithADigit("+" + s); }
    UnderscoreIsSkipped(s, t);
    assert (s + "_")[|s|] == '_';
  }

  lemma {:induction false} UnderscoreIsSkipped(s: string, t: string)
    requires Numeric(s) && Numeric(t)
    ensures IsMagnitude(s + "_" + t) && ValueOf(s + "_" + t) == ValueOf(s + t)
    decreases |t|
  {
    var whole, n := s + "_" + t, |s| + 1 + |t|;
    assert (s + t)[..n - 2] == s + t[..|t| - 1] && whole[..n - 1] == s + "_" + t[..|t| - 1];
    if |t| > 1 {
      UnderscoreIsSkipped(s, t[..|t| - 1]);
    } else {
      NumericIsAMagnitude(s);
      assert whole[..n - 2] == s && whole[..n - 1] == s + "_" && (s + "_")[..|s|] == s;
      assert s + t[..0] == s;
    }
  }

  // ------------------------------------------------------------------ successive revisions

  /** After any head comes the print of the next number ... */
  lemma NextPrints(head: Option<string>, id: string, n: int)
    requires id == NextRevision(head) && n == HeadNumber(head) + 1
    ensures id == Format(n)
  {
  }

  /** ... and that is the number it stands for. */
  lemma NextNumber(head: Option<string>, id: string)
    requires id == NextRevision(head)
    ensures HeadNumber(Some(id)) == HeadNumber(head) + 1
  {
    var n := HeadNumber(head) + 1;
    NextPrints(head, id, n);
    ParseUndoesFormat(n);
  }

  /** What is printed for a number is followed by what is printed for the next one. */
  lemma NextFollowsFormat(n: int)
    ensures NextRevision(Some(Format(n))) == Format(n + 1)
  {
    ParseUndoesFormat(n);
    NextPrints(Some(Format(n)), NextRevision(Some(Format(n))), n + 1);
  }

  /** `ids` are the ids of successive migrations made from `head` on, each finding the one before it as its head. */
  predicate IsHistory(head: Option<string>, ids: seq<string>)
    decreases |ids|
  {
    ids == [] || (ids[0] == NextRevision(head) && IsHistory(Some(ids[0]), ids[1..]))
  }

  lemma {:induction false} IdNumber(head: Option<string>, ids: seq<string>, k: nat)
    requires IsHistory(head, ids) && k < |ids|
    ensures HeadNumber(Some(ids[k])) == HeadNumber(head) + k + 1
    decreases k
  {
    NextNumber(head, ids[0]);
    if k > 0 { IdNumber(Some(ids[0]), ids[1..], k - 1); }
  }

  /** From any head whatsoever the ids are the prints of the numbers after the head's, one after the other. */
  lemma {:induction false} IdsCountUp(head: Option<string>, ids: seq<string>, k: nat, n: int)
    requires IsHistory(head, ids) && k < |ids| && n == HeadNumber(head) + k + 1
    ensures ids[k] == Format(n)
    decreases k
  {
    if k == 0 {
      NextPrints(head, ids[0], n);
    } else {
      NextNumber(head, ids[0]);
      IdsCountUp(Some(ids[0]), ids[1..], k - 1, n);
    }
  }

  /** Ids never repeat and keep increasing, from any head and however many migrations there are. */
  lemma IdsAreDistinct(head: Option<string>, ids: seq<string>, j: nat, k: nat)
    requires IsHistory(head, ids) && j < k < |ids|
    ensures ids[j] != ids[k]
    ensures HeadNumber(head) < HeadNumber(Some(ids[j])) < HeadNumber(Some(ids[k]))
  {
    IdNumber(head, ids, j);
    IdNumber(head, ids, k);
  }

  /** A head that does not parse restarts the count: two different histories then meet in the same id. */
  lemma UnparsableHeadRestarts(head: string)
    requires ParseInt(LStripZeros(head)).None?
    ensures NextRevision(Some(head)) == NextRevision(None) == "001"
  {
    assert Digits(1) == "1" by { assert Digits(0) == ""; }
    assert Zeros(2) == "00";
  }
}
