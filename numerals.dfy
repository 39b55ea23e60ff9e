/**
 * The digit transliterators of utils.js: ASCII digits to Extended
 * Arabic-Indic ("Persian") digits and back, every other character kept.
 */
module Numerals {

  /** `persianNumbers`: U+06F0 .. U+06F9, in digit order. */
  const PersianDigits: seq<char> := [
    '\U{06F0}', '\U{06F1}', '\U{06F2}', '\U{06F3}', '\U{06F4}',
    '\U{06F5}', '\U{06F6}', '\U{06F7}', '\U{06F8}', '\U{06F9}'
  ]

  /** `englishNumbers`. */
  const EnglishDigits: seq<char> := ['0', '1', '2', '3', '4', '5', '6', '7', '8', '9']

  /** A character the regular expression `\d` matches. */
  predicate IsAsciiDigit(c: char)
  {
    '0' <= c <= '9'
  }

  /** A character the class `[۰-۹]` (U+06F0 .. U+06F9) matches. */
  predicate IsPersianDigit(c: char)
  {
    '\U{06F0}' <= c <= '\U{06F9}'
  }

  /** Each table holds its digits at consecutive code points, in digit order. */
  lemma DigitTables()
    ensures |PersianDigits| == 10 && |EnglishDigits| == 10
    ensures forall k :: 0 <= k < 10 ==> PersianDigits[k] as int == 0x6F0 + k
    ensures forall k :: 0 <= k < 10 ==> EnglishDigits[k] as int == '0' as int + k
  {
  }

  /** `digits.indexOf(c)`: the first position of `c`, or -1. */
  function IndexOf(digits: seq<char>, c: char): (i: int)
    ensures -1 <= i < |digits|
    ensures i == -1 <==> c !in digits
    ensures 0 <= i ==> digits[i] == c && forall k :: 0 <= k < i ==> digits[k] != c
  {
    if digits == [] then -1
    else if digits[0] == c then 0
    else
      var j := IndexOf(digits[1..], c);
      if j == -1 then -1 else j + 1
  }

  /** The replacement `toPersianNumber` makes for one character: `persianNumbers[+w]` for a digit `w`. */
  function PersianOf(c: char): (r: char)
    ensures IsAsciiDigit(c) ==> IsPersianDigit(r) && r as int - 0x6F0 == c as int - '0' as int
    ensures !IsAsciiDigit(c) ==> r == c
  {
    if IsAsciiDigit(c) then
      DigitTables();
      PersianDigits[c as int - '0' as int]
    else c
  }

  /** The replacement `toEnglishNumber` makes for one character: `englishNumbers[persianNumbers.indexOf(w)]`. */
  function EnglishOf(c: char): (r: char)
    ensures IsPersianDigit(c) ==> IsAsciiDigit(r) && r as int - '0' as int == c as int - 0x6F0
    ensures !IsPersianDigit(c) ==> r == c
  {
    if IsPersianDigit(c) then
      PersianDigitIndexed(c);
      DigitTables();
      EnglishDigits[IndexOf(PersianDigits, c)]
    else c
  }

  /** Every character of the class `[۰-۹]` is in `persianNumbers`, at its offset from U+06F0. */
  lemma PersianDigitIndexed(c: char)
    requires IsPersianDigit(c)
    ensures IndexOf(PersianDigits, c) == c as int - 0x6F0
  {
    DigitTables();
    var k := c as int - 0x6F0;
    assert PersianDigits[k] == c;
    assert c in PersianDigits;
  }

  /** `toPersianNumber(str)` on a string argument. */
  function ToPersianNumber(s: string): (r: string)
    ensures |r| == |s|
    ensures forall i :: 0 <= i < |s| ==> r[i] == PersianOf(s[i])
  {
    if s == [] then [] else [PersianOf(s[0])] + ToPersianNumber(s[1..])
  }

  /** `toEnglishNumber(str)`. */
  function ToEnglishNumber(s: string): (r: string)
    ensures |r| == |s|
    ensures forall i :: 0 <= i < |s| ==> r[i] == EnglishOf(s[i])
  {
    if s == [] then [] else [EnglishOf(s[0])] + ToEnglishNumber(s[1..])
  }

  /** After `toPersianNumber` no ASCII digit is left. */
  lemma NoAsciiDigitAfterPersian(s: string)
    ensures forall i :: 0 <= i < |s| ==> !IsAsciiDigit(ToPersianNumber(s)[i])
  {
    forall i | 0 <= i < |s|
      ensures !IsAsciiDigit(ToPersianNumber(s)[i])
    {
      assert ToPersianNumber(s)[i] == PersianOf(s[i]);
    }
  }

  /** After `toEnglishNumber` no Persian digit is left. */
  lemma NoPersianDigitAfterEnglish(s: string)
    ensures forall i :: 0 <= i < |s| ==> !IsPersianDigit(ToEnglishNumber(s)[i])
  {
    forall i | 0 <= i < |s|
      ensures !IsPersianDigit(ToEnglishNumber(s)[i])
    {
      assert ToEnglishNumber(s)[i] == EnglishOf(s[i]);
    }
  }

  /** On one character: English after Persian is the identity, except on Persian digits. */
  lemma EnglishOfPersianOf(c: char)
    requires !IsPersianDigit(c)
    ensures EnglishOf(PersianOf(c)) == c
  {
    if IsAsciiDigit(c) {
      var p := PersianOf(c);
      var e := EnglishOf(p);
      assert e as int - '0' as int == c as int - '0' as int;
    }
  }

  /** On one character: Persian after English is the identity, except on ASCII digits. */
  lemma PersianOfEnglishOf(c: char)
    requires !IsAsciiDigit(c)
    ensures PersianOf(EnglishOf(c)) == c
  {
    if IsPersianDigit(c) {
      var e := EnglishOf(c);
      var p := PersianOf(e);
      assert p as int - 0x6F0 == c as int - 0x6F0;
    }
  }

  /** `toEnglishNumber` undoes `toPersianNumber` on a string without Persian digits. */
  lemma {:induction false} EnglishUndoesPersian(s: string)
    requires forall i :: 0 <= i < |s| ==> !IsPersianDigit(s[i])
    ensures ToEnglishNumber(ToPersianNumber(s)) == s
  {
    if s != [] {
      var t := ToPersianNumber(s);
      EnglishOfPersianOf(s[0]);
      EnglishUndoesPersian(s[1..]);
      assert t[0] == PersianOf(s[0]) && t[1..] == ToPersianNumber(s[1..]);
      assert s == [s[0]] + s[1..];
    }
  }

  /** `toPersianNumber` undoes `toEnglishNumber` on a string without ASCII digits. */
  lemma {:induction false} PersianUndoesEnglish(s: string)
    requires forall i :: 0 <= i < |s| ==> !IsAsciiDigit(s[i])
    ensures ToPersianNumber(ToEnglishNumber(s)) == s
  {
    if s != [] {
      var t := ToEnglishNumber(s);
      PersianOfEnglishOf(s[0]);
      PersianUndoesEnglish(s[1..]);
      assert t[0] == EnglishOf(s[0]) && t[1..] == ToEnglishNumber(s[1..]);
      assert s == [s[0]] + s[1..];
    }
  }

  /** A string without Persian digits is left as it is by `toEnglishNumber`. */
  lemma EnglishKeepsPlain(s: string)
    requires forall i :: 0 <= i < |s| ==> !IsPersianDigit(s[i])
    ensures ToEnglishNumber(s) == s
  {
  }
}
