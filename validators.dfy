/**
 * The form validators of utils.js, with their regular expressions written
 * out as string predicates.
 */
module Validators {
  import opened Numerals

  /** The characters `\s` matches in a JavaScript regular expression. */
  predicate IsJsWhitespace(c: char)
  {
    || c == '\t' || c == '\n' || c == '\U{000B}' || c == '\U{000C}' || c == '\r' || c == ' '
    || c == '\U{00A0}' || c == '\U{1680}' || ('\U{2000}' <= c <= '\U{200A}')
    || c == '\U{2028}' || c == '\U{2029}' || c == '\U{202F}' || c == '\U{205F}'
    || c == '\U{3000}' || c == '\U{FEFF}'
  }

  // ---------------------------------------------------------------------
  // validateEmail

  /** A run of `[^\s@]+`: one or more characters, none of them whitespace or '@'. */
  predicate Word(t: string)
  {
    |t| > 0 && forall k :: 0 <= k < |t| ==> !IsJsWhitespace(t[k]) && t[k] != '@'
  }

  /**
   * `validateEmail(email)`: the whole string matches
   * `^[^\s@]+@[^\s@]+\.[^\s@]+$`, the '@' at `at` and the '.' at `dot`.
   */
  predicate ValidateEmail(email: string)
  {
    exists at, dot | 0 <= at < dot < |email| ::
      && email[at] == '@' && email[dot] == '.'
      && Word(email[..at]) && Word(email[at + 1..dot]) && Word(email[dot + 1..])
  }

  /**
   * The shape the expression describes: no whitespace, exactly one '@'
   * with something before it, and a '.' after it with at least one
   * character on each side.
   */
  predicate EmailShape(email: string)
  {
    && (forall k :: 0 <= k < |email| ==> !IsJsWhitespace(email[k]))
    && exists at | 0 < at < |email| ::
         && email[at] == '@'
         && (forall k :: 0 <= k < |email| && email[k] == '@' ==> k == at)
         && exists dot | at + 1 < dot < |email| - 1 :: email[dot] == '.'
  }

  /** A match puts every character of the string in one of the three runs or on the '@' or the '.'. */
  lemma MatchCoversString(email: string, at: int, dot: int, k: int)
    requires 0 <= at < dot < |email| && email[at] == '@' && email[dot] == '.'
    requires Word(email[..at]) && Word(email[at + 1..dot]) && Word(email[dot + 1..])
    requires 0 <= k < |email|
    ensures !IsJsWhitespace(email[k])
    ensures email[k] == '@' ==> k == at
  {
    if k < at {
      assert email[k] == email[..at][k];
    } else if at < k < dot {
      assert email[k] == email[at + 1..dot][k - at - 1];
    } else if dot < k {
      assert email[k] == email[dot + 1..][k - dot - 1];
    }
  }

  /** `validateEmail` accepts exactly the strings of that shape. */
  lemma ValidateEmailIsShape(email: string)
    ensures ValidateEmail(email) <==> EmailShape(email)
  {
    if ValidateEmail(email) {
      var at, dot :| 0 <= at < dot < |email| && email[at] == '@' && email[dot] == '.'
        && Word(email[..at]) && Word(email[at + 1..dot]) && Word(email[dot + 1..]);
      forall k | 0 <= k < |email|
        ensures !IsJsWhitespace(email[k]) && (email[k] == '@' ==> k == at)
      {
        MatchCoversString(email, at, dot, k);
      }
      assert at + 1 < dot < |email| - 1;
    }
    if EmailShape(email) {
      var at :| 0 < at < |email| && email[at] == '@'
        && (forall k :: 0 <= k < |email| && email[k] == '@' ==> k == at)
        && exists dot | at + 1 < dot < |email| - 1 :: email[dot] == '.';
      var dot :| at + 1 < dot < |email| - 1 && email[dot] == '.';
      assert Word(email[..at]) && Word(email[at + 1..dot]) && Word(email[dot + 1..]);
    }
  }

  // ---------------------------------------------------------------------
  // validatePhone

  /** `9\d{9}`: a '9' and then exactly nine ASCII digits. */
  predicate MobileNumber(t: string)
  {
    |t| == 10 && t[0] == '9' && forall k :: 1 <= k < 10 ==> IsAsciiDigit(t[k])
  }

  /** The whole string matches `^(\+98|0)?9\d{9}$`. */
  predicate PhonePattern(s: string)
  {
    || MobileNumber(s)
    || (|s| >= 1 && s[0] == '0' && MobileNumber(s[1..]))
    || (|s| >= 3 && s[..3] == "+98" && MobileNumber(s[3..]))
  }

  /** `validatePhone(phone)`: Persian digits count as digits. */
  predicate ValidatePhone(phone: string)
  {
    PhonePattern(ToEnglishNumber(phone))
  }

  /** The three ways of writing a mobile number are accepted alike. */
  lemma PrefixesAreInterchangeable(t: string)
    ensures PhonePattern(t) <== MobileNumber(t)
    ensures PhonePattern("0" + t) <==> MobileNumber(t)
    ensures PhonePattern("+98" + t) <==> MobileNumber(t)
  {
    assert ("0" + t)[1..] == t;
    assert ("+98" + t)[..3] == "+98" && ("+98" + t)[3..] == t;
  }

  /** An accepted string is 10, 11 or 13 characters long and ends in a mobile number. */
  lemma PhoneEndsInMobileNumber(s: string)
    requires PhonePattern(s)
    ensures |s| == 10 || |s| == 11 || |s| == 13
    ensures MobileNumber(s[|s| - 10..])
  {
    if !MobileNumber(s) {
      if |s| >= 1 && s[0] == '0' && MobileNumber(s[1..]) {
        assert s[|s| - 10..] == s[1..];
      } else {
        assert s[|s| - 10..] == s[3..];
      }
    }
  }

  /** A number typed in Persian digits validates as the same number typed in ASCII digits. */
  lemma PersianDigitsValidateAlike(s: string)
    requires forall i :: 0 <= i < |s| ==> !IsPersianDigit(s[i])
    ensures ValidatePhone(ToPersianNumber(s)) == ValidatePhone(s) == PhonePattern(s)
  {
    EnglishUndoesPersian(s);
    EnglishKeepsPlain(s);
  }
}
