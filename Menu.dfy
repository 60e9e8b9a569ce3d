/** `handleMenu`: decoding the selection typed at the menu prompt. The text is
    converted as `strconv.Atoi` does (an optional sign, then decimal digits,
    within the range of a 64-bit `int`); anything else counts as -1. */
module Menu {
  import opened Types

  const MinInt64: int := -0x8000_0000_0000_0000
  const MaxInt64: int := 0x7FFF_FFFF_FFFF_FFFF

  predicate IsDigit(c: char)
  {
    '0' <= c <= '9'
  }

  function DigitValue(c: char): (v: nat)
    requires IsDigit(c)
    ensures v < 10
  {
    c as int - '0' as int
  }

  function DigitChar(v: nat): (c: char)
    requires v < 10
    ensures IsDigit(c) && DigitValue(c) == v
  {
    (v + '0' as int) as char
  }

  predicate AllDigits(d: string)
  {
    forall i :: 0 <= i < |d| ==> IsDigit(d[i])
  }

  predicate HasSign(s: string)
  {
    |s| > 0 && (s[0] == '+' || s[0] == '-')
  }

  /** `s` without its leading sign, if it has one. */
  function Unsigned(s: string): string
  {
    if HasSign(s) then s[1..] else s
  }

  /** The text Atoi accepts before its range check: an optional sign followed by
      at least one decimal digit, and nothing else. */
  predicate IsIntegerText(s: string)
  {
    |Unsigned(s)| > 0 && AllDigits(Unsigned(s))
  }

  /** The value of a non-empty string of decimal digits, most significant first. */
  function DigitsValue(d: string): (r: Option<nat>)
    ensures r.Some? <==> |d| > 0 && AllDigits(d)
    decreases |d|
  {
    if |d| == 0 || !IsDigit(d[|d| - 1]) then None
    else if |d| == 1 then Some(DigitValue(d[0]))
    else
      match DigitsValue(d[..|d| - 1])
      case None => None
      case Some(v) => Some(10 * v + DigitValue(d[|d| - 1]))
  }

  /** The integer an optionally signed decimal numeral denotes. */
  function ParseInt(s: string): (r: Option<int>)
    ensures r.Some? <==> IsIntegerText(s)
  {
    match DigitsValue(Unsigned(s))
    case None => None
    case Some(v) =>
      var n: int := v;
      if |s| > 0 && s[0] == '-' then Some(-n) else Some(n)
  }

  /** `strconv.Atoi` on a 64-bit platform: a syntax error or a range error gives
      no value. */
  function Atoi(s: string): (r: Option<int>)
    ensures r.Some? <==> IsIntegerText(s) && MinInt64 <= ParseInt(s).value <= MaxInt64
    ensures r.Some? ==> r == ParseInt(s)
  {
    match ParseInt(s)
    case Some(n) => if MinInt64 <= n <= MaxInt64 then Some(n) else None
    case None => None
  }

  /** The number `handleMenu` switches on: the converted selection, or -1 when
      the conversion fails. */
  function SelectionNumber(selection: string): int
  {
    match Atoi(selection)
    case Some(n) => n
    case None => -1
  }

  /** What a menu entry does: 1 and 5 run an action, 2, 3, 4, 6 and 7 only
      announce an unimplemented feature, 0 quits, anything else re-prompts. */
  datatype MenuAction =
    | Quit
    | SelectPodcast
    | PlayEpisode
    | SubscribeToPodcast
    | SearchForPodcasts
    | ImportOpml
    | ExportOpml
    | Settings
    | Reprompt

  /** The action a selection leads to and whether the menu loop keeps running. */
  function HandleMenu(selection: string): (r: (MenuAction, bool))
    ensures !r.1 <==> Atoi(selection) == Some(0)
    ensures r.1 <==> r.0 != Quit
    ensures r.0 == SelectPodcast <==> Atoi(selection) == Some(1)
    ensures r.0 == ImportOpml <==> Atoi(selection) == Some(5)
    ensures r.0 == PlayEpisode <==> Atoi(selection) == Some(2)
    ensures r.0 == SubscribeToPodcast <==> Atoi(selection) == Some(3)
    ensures r.0 == SearchForPodcasts <==> Atoi(selection) == Some(4)
    ensures r.0 == ExportOpml <==> Atoi(selection) == Some(6)
    ensures r.0 == Settings <==> Atoi(selection) == Some(7)
    ensures r.0 == Reprompt <==> Atoi(selection).None? || !(0 <= Atoi(selection).value <= 7)
    ensures !IsIntegerText(selection) ==> r == (Reprompt, true)
  {
    var action :=
      match SelectionNumber(selection)
      case 0 => Quit
      case 1 => SelectPodcast
      case 2 => PlayEpisode
      case 3 => SubscribeToPodcast
      case 4 => SearchForPodcasts
      case 5 => ImportOpml
      case 6 => ExportOpml
      case 7 => Settings
      case _ => Reprompt;
    (action, action != Quit)
  }

  /** The decimal numeral of a natural number, without leading zeros. */
  function FormatNat(n: nat): (s: string)
    ensures |s| > 0 && AllDigits(s)
    decreases n
  {
    if n < 10 then [DigitChar(n)] else FormatNat(n / 10) + [DigitChar(n % 10)]
  }

  /** The decimal numeral of an integer, with a minus sign when negative. */
  function FormatInt(n: int): string
  {
    if n < 0 then "-" + FormatNat(-n) else FormatNat(n)
  }

  lemma {:induction false} DigitsValueOfFormatNat(n: nat)
    ensures DigitsValue(FormatNat(n)) == Some(n)
    decreases n
  {
    if n >= 10 {
      var s := FormatNat(n);
      DigitsValueOfFormatNat(n / 10);
      assert s[..|s| - 1] == FormatNat(n / 10);
    }
  }

  /** Parsing undoes formatting, for every integer. */
  lemma ParseFormatInt(n: int)
    ensures ParseInt(FormatInt(n)) == Some(n)
  {
    if n < 0 {
      DigitsValueOfFormatNat(-n);
      assert Unsigned(FormatInt(n)) == FormatNat(-n);
    } else {
      DigitsValueOfFormatNat(n);
      assert Unsigned(FormatInt(n)) == FormatNat(n);
    }
  }

  /** Typing the numeral of a number within the 64-bit range selects that
      number; when it is 0 the menu loop stops, otherwise it goes on. */
  lemma HandleFormattedNumber(n: int)
    requires MinInt64 <= n <= MaxInt64
    ensures SelectionNumber(FormatInt(n)) == n
    ensures HandleMenu(FormatInt(n)).1 <==> n != 0
  {
    ParseFormatInt(n);
  }

  predicate AllZeros(d: string)
  {
    forall i :: 0 <= i < |d| ==> d[i] == '0'
  }

  lemma {:induction false} DigitsValueZero(d: string)
    ensures DigitsValue(d) == Some(0) <==> |d| > 0 && AllZeros(d)
    decreases |d|
  {
    if |d| > 1 {
      DigitsValueZero(d[..|d| - 1]);
      if AllZeros(d) {
        assert AllZeros(d[..|d| - 1]);
      }
      if DigitsValue(d) == Some(0) {
        assert AllZeros(d[..|d| - 1]);
      }
    }
  }

  /** The menu loop stops exactly for a selection that is an optional sign
      followed by one or more zeros ("0", "00", "-0", "+000", ...). */
  lemma QuitSpellings(selection: string)
    ensures !HandleMenu(selection).1 <==> |Unsigned(selection)| > 0 && AllZeros(Unsigned(selection))
  {
    DigitsValueZero(Unsigned(selection));
  }

  /** A leading zero does not change the value of a digit string. */
  lemma {:induction false} LeadingZero(d: string)
    requires |d| > 0
    ensures DigitsValue("0" + d) == DigitsValue(d)
    decreases |d|
  {
    var z := "0" + d;
    if |d| > 1 {
      assert z[..|z| - 1] == "0" + d[..|d| - 1];
      LeadingZero(d[..|d| - 1]);
    } else {
      assert z[..|z| - 1] == "0";
    }
  }

  /** A leading `+` is accepted and changes nothing, and a leading `-` negates. */
  lemma SignedNumerals(d: string)
    requires !HasSign(d)
    ensures ParseInt("+" + d) == ParseInt(d)
    ensures ParseInt("-" + d) == if ParseInt(d).Some? then Some(-ParseInt(d).value) else None
  {
  }
}
