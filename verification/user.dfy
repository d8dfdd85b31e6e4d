/**
 * The user value types: usernames, phone numbers and user records.
 * Each value type wraps a string and compares by that string alone; its
 * `Valid` predicate is the length and pattern constraint the source attaches
 * to the field.
 */
module UserDomain {

  /** A character of the class `[a-z0-9._-]`. */
  predicate IsNameChar(c: char) {
    ('a' <= c <= 'z') || ('0' <= c <= '9') || c == '.' || c == '_' || c == '-'
  }

  /** Length 3 to 20 and every character from `[a-z0-9._-]`; shared by usernames and group names. */
  predicate IsName(s: string) {
    3 <= |s| <= 20 && forall i :: 0 <= i < |s| ==> IsNameChar(s[i])
  }

  predicate IsDigit(c: char) {
    '0' <= c <= '9'
  }

  predicate AllDigits(s: string) {
    forall i :: 0 <= i < |s| ==> IsDigit(s[i])
  }

  /** The part of the phone pattern after the optional plus: `[0-9]\d{1,14}`. */
  predicate DigitRun(s: string) {
    |s| >= 1 && IsDigit(s[0]) && 1 <= |s[1..]| <= 14 && AllDigits(s[1..])
  }

  /** The whole phone pattern `^\+?[0-9]\d{1,14}$`, read left to right. */
  predicate MatchesPhonePattern(s: string) {
    if |s| > 0 && s[0] == '+' then DigitRun(s[1..]) else DigitRun(s)
  }

  datatype Username = Username(root: string) {
    predicate Valid() {
      IsName(root)
    }
  }

  datatype PhoneNumber = PhoneNumber(root: string) {
    /** Length 10 to 15 and the phone pattern. */
    predicate Valid() {
      10 <= |root| <= 15 && MatchesPhonePattern(root)
    }
  }

  /** A registered user; the password hash is carried along but never interpreted. */
  datatype User = User(username: Username, phoneNumber: PhoneNumber, hashedPassword: string)

  /**
   * A valid phone number is a plus followed by 9 to 14 digits, or 10 to 15
   * digits with no plus, and every such string is valid.
   */
  lemma PhoneNumberShape(p: PhoneNumber)
    ensures p.Valid() <==>
      || (|p.root| > 0 && p.root[0] == '+' && 9 <= |p.root| - 1 <= 14 && AllDigits(p.root[1..]))
      || (|p.root| > 0 && p.root[0] != '+' && 10 <= |p.root| <= 15 && AllDigits(p.root))
  {
  }
}
