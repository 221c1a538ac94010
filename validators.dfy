/**
 * The request-validation rule sets of middleware/validators.js, one predicate
 * per rule chain and one per rule set.
 *
 * A request field is an `Option<string>`: `None` is a field the client left
 * out. The validation library reads an absent field as the empty string, and
 * a chain marked optional skips an absent field. The `trim()` sanitizer
 * rewrites the field in place, so every check after it in the chain sees the
 * trimmed text, and so does the handler.
 */
module Validators {
  import opened Base

  // ---------------------------------------------------------------------------
  // Trimming
  // ---------------------------------------------------------------------------

  /** The characters a JavaScript `\s` matches; the library's trim strips these. */
  predicate IsSpace(c: char) {
    || c == ' ' || c == '\t' || c == '\n' || c == '\U{B}' || c == '\U{C}' || c == '\r'
    || c == '\U{A0}' || c == '\U{1680}' || ('\U{2000}' <= c <= '\U{200A}')
    || c == '\U{2028}' || c == '\U{2029}' || c == '\U{202F}' || c == '\U{205F}'
    || c == '\U{3000}' || c == '\U{FEFF}'
  }

  predicate AllSpaces(s: string) {
    forall i :: 0 <= i < |s| ==> IsSpace(s[i])
  }

  /** A blank followed by blanks. */
  lemma SpacesThenSpaces(s: string, n: int)
    requires 0 < n <= |s| && IsSpace(s[0]) && AllSpaces(s[1..][..n - 1])
    ensures AllSpaces(s[..n])
  {
    forall i | 0 < i < n ensures IsSpace(s[..n][i]) {
      assert s[..n][i] == s[1..][..n - 1][i - 1];
    }
  }

  /** Blanks followed by a blank. */
  lemma SpacesThenSpace(s: string, n: int)
    requires 0 <= n < |s| && IsSpace(s[|s| - 1]) && AllSpaces(s[..|s| - 1][n..])
    ensures AllSpaces(s[n..])
  {
    forall i | 0 <= i < |s| - n - 1 ensures IsSpace(s[n..][i]) {
      assert s[n..][i] == s[..|s| - 1][n..][i];
    }
  }

  /** One leading blank dropped before the rest is trimmed: the result is still a suffix of `s`
      with only blanks before it. */
  lemma TrimStartStep(s: string, r: string)
    requires s != [] && IsSpace(s[0])
    requires |r| <= |s| - 1 && r == s[1..][|s| - 1 - |r|..] && AllSpaces(s[1..][..|s| - 1 - |r|])
    ensures r == s[|s| - |r|..] && AllSpaces(s[..|s| - |r|])
  {
    assert s[|s| - |r|..] == s[1..][|s| - 1 - |r|..];
    SpacesThenSpaces(s, |s| - |r|);
  }

  /** One trailing blank dropped before the rest is trimmed: the result is still a prefix of `s`
      with only blanks after it. */
  lemma TrimEndStep(s: string, r: string)
    requires s != [] && IsSpace(s[|s| - 1])
    requires |r| <= |s| - 1 && r == s[..|s| - 1][..|r|] && AllSpaces(s[..|s| - 1][|r|..])
    ensures r == s[..|r|] && AllSpaces(s[|r|..])
  {
    assert s[..|r|] == s[..|s| - 1][..|r|];
    SpacesThenSpace(s, |r|);
  }

  /** Drops leading white space: what is left is a suffix of `s` and what was dropped is white space. */
  function TrimStart(s: string): (r: string)
    ensures |r| <= |s| && r == s[|s| - |r|..]
    ensures AllSpaces(s[..|s| - |r|])
    ensures r == [] || !IsSpace(r[0])
  {
    if s != [] && IsSpace(s[0]) then
      var r := TrimStart(s[1..]);
      TrimStartStep(s, r);
      r
    else s
  }

  /** Drops trailing white space: what is left is a prefix of `s` and what was dropped is white space. */
  function TrimEnd(s: string): (r: string)
    ensures |r| <= |s| && r == s[..|r|]
    ensures AllSpaces(s[|r|..])
    ensures r == [] || !IsSpace(r[|r| - 1])
  {
    if s != [] && IsSpace(s[|s| - 1]) then
      var r := TrimEnd(s[..|s| - 1]);
      TrimEndStep(s, r);
      r
    else s
  }

  /** The `trim()` sanitizer. */
  function Trim(s: string): string {
    TrimEnd(TrimStart(s))
  }

  /** A text with no white space at either end. */
  predicate IsTrimmed(s: string) {
    s == [] || (!IsSpace(s[0]) && !IsSpace(s[|s| - 1]))
  }

  /** `t` is the slice of `s` at `i`, with only white space before and after it. */
  predicate BlankPaddedAt(s: string, t: string, i: int) {
    && 0 <= i <= |s| - |t|
    && t == s[i..i + |t|]
    && AllSpaces(s[..i]) && AllSpaces(s[i + |t|..])
  }

  /** Trim removes white space at both ends and nothing else: it returns a slice of `s` with
      only white space before and after it. */
  lemma TrimIsInnerSlice(s: string)
    ensures exists i :: BlankPaddedAt(s, Trim(s), i)
  {
    var a := TrimStart(s);
    PaddedFromParts(s, a, TrimEnd(a));
    assert BlankPaddedAt(s, Trim(s), |s| - |a|);
  }

  /** A suffix of `s` after blanks, cut to a prefix before blanks, is padded by blanks in `s`. */
  lemma PaddedFromParts(s: string, a: string, t: string)
    requires |a| <= |s| && a == s[|s| - |a|..] && AllSpaces(s[..|s| - |a|])
    requires |t| <= |a| && t == a[..|t|] && AllSpaces(a[|t|..])
    ensures BlankPaddedAt(s, t, |s| - |a|)
  {
    var i := |s| - |a|;
    assert t == s[i..i + |t|];
    assert s[i + |t|..] == a[|t|..];
  }

  /** ... and what it returns starts and ends with a character that is not white space. */
  lemma TrimIsTrimmed(s: string)
    ensures IsTrimmed(Trim(s))
  {
    var a := TrimStart(s);
    var t := TrimEnd(a);
    if t != [] {
      assert t[0] == a[0];
    }
  }

  /** Trimming leaves a text alone exactly when it has no white space at either end. */
  lemma TrimmedIff(s: string)
    ensures Trim(s) == s <==> IsTrimmed(s)
  {
    TrimIsTrimmed(s);
    if IsTrimmed(s) {
      assert TrimStart(s) == s;
      assert TrimEnd(s) == s;
    }
  }

  /** The handler sees trimmed text, and trimming that text again changes nothing. */
  lemma {:induction false} TrimIdempotent(s: string)
    ensures Trim(Trim(s)) == Trim(s)
  {
    TrimIsTrimmed(s);
    var t := Trim(s);
    assert TrimStart(t) == t;
    assert TrimEnd(t) == t;
  }

  /** A text trims to nothing exactly when it is all white space. */
  lemma {:induction false} TrimEmptyIff(s: string)
    ensures Trim(s) == [] <==> AllSpaces(s)
  {
    var a := TrimStart(s);
    if Trim(s) == [] {
      assert s == s[..|s| - |a|] + a;
      assert AllSpaces(a[|TrimEnd(a)|..]);
    }
  }

  /** The value a chain checks: an absent field reads as the empty string. */
  function Text(field: Option<string>): string {
    field.GetOr("")
  }

  // ---------------------------------------------------------------------------
  // Character classes and integer text
  // ---------------------------------------------------------------------------

  predicate IsDigit(c: char) {
    '0' <= c <= '9'
  }

  predicate AllDigits(s: string) {
    forall i :: 0 <= i < |s| ==> IsDigit(s[i])
  }

  /** `[a-zA-Z0-9_]` */
  predicate IsUsernameChar(c: char) {
    ('a' <= c <= 'z') || ('A' <= c <= 'Z') || IsDigit(c) || c == '_'
  }

  /** The value of a string of decimal digits. */
  function DigitsValue(s: string): nat
    requires AllDigits(s)
  {
    if s == [] then 0 else DigitsValue(s[..|s| - 1]) * 10 + (s[|s| - 1] as int - '0' as int)
  }

  /** The decimal text of a natural number, without leading zeros. */
  function DecimalText(n: nat): (s: string)
    ensures |s| > 0 && AllDigits(s)
  {
    var digit := ['0' + (n % 10) as char];
    if n < 10 then digit else DecimalText(n / 10) + digit
  }

  lemma {:induction false} DecimalTextValue(n: nat)
    ensures DigitsValue(DecimalText(n)) == n
  {
    var s := DecimalText(n);
    if n >= 10 {
      DecimalTextValue(n / 10);
      assert s[..|s| - 1] == DecimalText(n / 10);
    }
  }

  /** The digits after an optional sign. */
  function Unsigned(s: string): string {
    if |s| > 0 && (s[0] == '+' || s[0] == '-') then s[1..] else s
  }

  /** The library's `isInt` shape with leading zeros allowed: `^[-+]?[0-9]+$`. */
  predicate IsIntText(s: string) {
    |Unsigned(s)| > 0 && AllDigits(Unsigned(s))
  }

  /** The number such a text denotes; this is also what the schema's Number cast stores. */
  function IntValue(s: string): int
    requires IsIntText(s)
  {
    if s[0] == '-' then -(DigitsValue(Unsigned(s)) as int) else DigitsValue(Unsigned(s))
  }

  /** `isInt({ min: 1, max: 10 })` */
  predicate IsScoreText(s: string) {
    IsIntText(s) && 1 <= IntValue(s) <= 10
  }

  /** Every score from 1 to 10, written out in decimal, passes `isInt` and reads back as itself. */
  lemma ScoreTextRoundTrip(n: int)
    requires 1 <= n <= 10
    ensures IsScoreText(DecimalText(n)) && IntValue(DecimalText(n)) == n
  {
    DecimalTextValue(n);
    assert Unsigned(DecimalText(n)) == DecimalText(n);
  }

  // ---------------------------------------------------------------------------
  // Rule chains
  // ---------------------------------------------------------------------------

  /** username: trim, not empty, length 3..20, `^[a-zA-Z0-9_]+$`. */
  predicate ValidUsername(field: Option<string>) {
    var t := Trim(Text(field));
    && |t| > 0
    && 3 <= |t| <= 20
    && forall i :: 0 <= i < |t| ==> IsUsernameChar(t[i])
  }

  /** name on registration: trim, not empty, at most 50 characters. */
  predicate ValidRequiredName(field: Option<string>) {
    var t := Trim(Text(field));
    |t| > 0 && |t| <= 50
  }

  /** name on profile update: optional, trim, at most 50 characters. */
  predicate ValidOptionalName(field: Option<string>) {
    field.None? || |Trim(field.value)| <= 50
  }

  /** `^\+?[1-9]\d{9,14}$`: an optional plus sign, a digit 1-9, then 9 to 14 more digits. */
  predicate MatchesPhone(t: string) {
    var d := if |t| > 0 && t[0] == '+' then t[1..] else t;
    && 10 <= |d| <= 15
    && '1' <= d[0] <= '9'
    && AllDigits(d)
  }

  /** phoneNumber on registration: trim, not empty, phone pattern. */
  predicate ValidRequiredPhone(field: Option<string>) {
    var t := Trim(Text(field));
    |t| > 0 && MatchesPhone(t)
  }

  /** phoneNumber on profile update: optional, trim, phone pattern. */
  predicate ValidOptionalPhone(field: Option<string>) {
    field.None? || MatchesPhone(Trim(field.value))
  }

  /** password on registration: trim, not empty, at least 6 characters. */
  predicate ValidNewPassword(field: Option<string>) {
    var t := Trim(Text(field));
    |t| > 0 && |t| >= 6
  }

  /** password on login: trim, not empty. */
  predicate ValidLoginPassword(field: Option<string>) {
    |Trim(Text(field))| > 0
  }

  /** score on create: not empty, then `isInt({ min: 1, max: 10 })`. */
  predicate ValidRequiredScore(field: Option<string>) {
    |Text(field)| > 0 && IsScoreText(Text(field))
  }

  /** score on update: optional, then `isInt({ min: 1, max: 10 })`. */
  predicate ValidOptionalScore(field: Option<string>) {
    field.None? || IsScoreText(field.value)
  }

  /** high or low on create: not empty (checked BEFORE trimming), trim, at most 500 characters. */
  predicate ValidRequiredPoint(field: Option<string>) {
    |Text(field)| > 0 && |Trim(Text(field))| <= 500
  }

  /** high or low on update: optional, trim, at most 500 characters. */
  predicate ValidOptionalPoint(field: Option<string>) {
    field.None? || |Trim(field.value)| <= 500
  }

  /** action: `isIn(['accept', 'reject'])`. */
  predicate ValidAction(field: Option<string>) {
    field == Some("accept") || field == Some("reject")
  }

  // ---------------------------------------------------------------------------
  // Rule sets
  // ---------------------------------------------------------------------------

  datatype RegisterRequest = RegisterRequest(
    username: Option<string>, name: Option<string>, email: Option<string>,
    phoneNumber: Option<string>, password: Option<string>)

  datatype LoginRequest = LoginRequest(email: Option<string>, password: Option<string>)

  datatype ProfileUpdateRequest = ProfileUpdateRequest(name: Option<string>, phoneNumber: Option<string>)

  /** A day entry to create. `date` is the client's timestamp in milliseconds, already parsed. */
  datatype CreateDayRequest = CreateDayRequest(
    date: Option<int>, score: Option<string>, high: Option<string>, low: Option<string>)

  datatype UpdateDayRequest = UpdateDayRequest(
    score: Option<string>, high: Option<string>, low: Option<string>)

  predicate RegisterValid(r: RegisterRequest) {
    && ValidUsername(r.username)
    && ValidRequiredName(r.name)
    && ValidRequiredPhone(r.phoneNumber)
    && ValidNewPassword(r.password)
  }

  predicate LoginValid(r: LoginRequest) {
    ValidLoginPassword(r.password)
  }

  predicate ProfileUpdateValid(r: ProfileUpdateRequest) {
    ValidOptionalName(r.name) && ValidOptionalPhone(r.phoneNumber)
  }

  predicate CreateDayValid(r: CreateDayRequest) {
    && r.date.Some?
    && ValidRequiredScore(r.score)
    && ValidRequiredPoint(r.high)
    && ValidRequiredPoint(r.low)
  }

  predicate UpdateDayValid(r: UpdateDayRequest) {
    ValidOptionalScore(r.score) && ValidOptionalPoint(r.high) && ValidOptionalPoint(r.low)
  }

  predicate FriendRequestResponseValid(action: Option<string>) {
    ValidAction(action)
  }

  // ---------------------------------------------------------------------------
  // What the rule sets guarantee
  // ---------------------------------------------------------------------------

  /** A username that passes contains no white space at all, so it is stored exactly as trimmed,
      and it is at most 20 characters of `[a-zA-Z0-9_]`. */
  lemma {:induction false} UsernameHasNoSpace(field: Option<string>)
    requires ValidUsername(field)
    ensures forall i :: 0 <= i < |Trim(Text(field))| ==> !IsSpace(Trim(Text(field))[i])
  {
    var t := Trim(Text(field));
    forall i | 0 <= i < |t| ensures !IsSpace(t[i]) {
      assert IsUsernameChar(t[i]);
    }
  }

  /** Validating the sanitized value gives the same verdict as validating the raw one. */
  lemma UsernameSanitizedStable(u: string)
    ensures ValidUsername(Some(Trim(u))) == ValidUsername(Some(u))
  {
    TrimIdempotent(u);
  }

  /** A text matches the phone pattern exactly when it is 10 to 15 digits, the first of them not
      '0', with at most a '+' in front. */
  lemma {:induction false} PhoneDigitCount(t: string)
    ensures MatchesPhone(t) <==>
      if |t| > 0 && t[0] == '+' then
        11 <= |t| <= 16 && t[1] != '0' && forall i :: 1 <= i < |t| ==> IsDigit(t[i])
      else
        10 <= |t| <= 15 && t[0] != '0' && forall i :: 0 <= i < |t| ==> IsDigit(t[i])
  {
    if |t| > 0 && t[0] == '+' {
      var d := t[1..];
      assert forall i :: 1 <= i < |t| ==> t[i] == d[i - 1];
      assert (forall i :: 1 <= i < |t| ==> IsDigit(t[i])) <==> AllDigits(d);
    }
  }

  /** Whatever registration accepts as name and phone number, a profile update accepts too. */
  lemma RegisterImpliesProfileUpdate(r: RegisterRequest)
    requires RegisterValid(r)
    ensures ProfileUpdateValid(ProfileUpdateRequest(r.name, r.phoneNumber))
  {
  }

  /** A registration password is always an acceptable login password. */
  lemma RegisterImpliesLoginPassword(r: RegisterRequest)
    requires RegisterValid(r)
    ensures LoginValid(LoginRequest(r.email, r.password))
  {
  }

  /** The converse fails: a three-letter password logs in but cannot register. */
  lemma ShortPasswordLoginOnly()
    ensures !ValidNewPassword(Some("abc")) && ValidLoginPassword(Some("abc"))
  {
    TrimmedIff("abc");
  }

  /** Whatever creation accepts for score, high and low, an update accepts too. */
  lemma CreateImpliesUpdate(r: CreateDayRequest)
    requires CreateDayValid(r)
    ensures UpdateDayValid(UpdateDayRequest(r.score, r.high, r.low))
  {
  }

  /** `z` zero digits. */
  function Zeros(z: nat): (r: string)
    ensures |r| == z && AllDigits(r)
  {
    seq(z, _ => '0')
  }

  lemma {:induction false} ZerosValue(z: nat)
    ensures DigitsValue(Zeros(z)) == 0
  {
    if z > 0 {
      assert Zeros(z)[..z - 1] == Zeros(z - 1);
      ZerosValue(z - 1);
    }
  }

  /** Leading zeros do not change the value of a digit string. */
  lemma {:induction false} LeadingZerosValue(z: nat, t: string)
    requires AllDigits(t)
    ensures AllDigits(Zeros(z) + t) && DigitsValue(Zeros(z) + t) == DigitsValue(t)
  {
    var u := Zeros(z) + t;
    assert forall i :: 0 <= i < |u| ==> IsDigit(u[i]) by {
      forall i | 0 <= i < |u| ensures IsDigit(u[i]) {
        if i >= z { assert u[i] == t[i - z]; }
      }
    }
    if t == [] {
      assert u == Zeros(z);
      ZerosValue(z);
    } else {
      assert u[..|u| - 1] == Zeros(z) + t[..|t| - 1];
      LeadingZerosValue(z, t[..|t| - 1]);
    }
  }

  /** A digit string that does not start with '0' denotes at least 1. */
  lemma {:induction false} NoLeadingZeroPositive(d: string)
    requires AllDigits(d) && d != [] && d[0] != '0'
    ensures DigitsValue(d) >= 1
  {
    if |d| > 1 {
      NoLeadingZeroPositive(d[..|d| - 1]);
    }
  }

  /** A digit string without a leading zero is the decimal text of its own value. */
  lemma {:induction false} CanonicalDigits(d: string)
    requires AllDigits(d) && d != [] && d[0] != '0'
    ensures d == DecimalText(DigitsValue(d))
  {
    var p, c, v := d[..|d| - 1], d[|d| - 1], DigitsValue(d);
    assert d == p + [c];
    assert '0' + (c as int - '0' as int) as char == c;
    if p != [] {
      NoLeadingZeroPositive(p);
      CanonicalDigits(p);
      assert v / 10 == DigitsValue(p) && v % 10 == c as int - '0' as int;
    }
  }

  /** The number of '0' characters that open `u`. */
  function LeadingZeros(u: string): (z: nat)
    ensures z <= |u| && u[..z] == Zeros(z) && (z < |u| ==> u[z] != '0')
  {
    if u != [] && u[0] == '0' then
      var z := 1 + LeadingZeros(u[1..]);
      assert u[..z] == ['0'] + u[1..][..z - 1];
      z
    else 0
  }

  /** How a score may be spelled: an optional '+', any number of zeros, and the decimal text of
      a number from 1 to 10. */
  predicate ScoreSpelling(s: string, z: nat, n: nat) {
    1 <= n <= 10 && (s == Zeros(z) + DecimalText(n) || s == ['+'] + Zeros(z) + DecimalText(n))
  }

  /** An accepted score has no '-' sign, so its digits alone give its value. */
  lemma ScoreSign(s: string)
    requires IsScoreText(s)
    ensures s == Unsigned(s) || s == ['+'] + Unsigned(s)
    ensures 1 <= DigitsValue(Unsigned(s)) <= 10
  {
  }

  lemma {:induction false} ScoreTextSpelled(s: string) returns (z: nat, n: nat)
    requires IsScoreText(s)
    ensures ScoreSpelling(s, z, n)
  {
    ScoreSign(s);
    var u := Unsigned(s);
    z := LeadingZeros(u);
    if z == |u| {
      assert u == Zeros(z);
      ZerosValue(z);
      assert false;
    }
    var rest := u[z..];
    assert u == Zeros(z) + rest;
    LeadingZerosValue(z, rest);
    CanonicalDigits(rest);
    n := DigitsValue(rest);
    assert u == Zeros(z) + DecimalText(n);
  }

  lemma {:induction false} SpelledScoreText(s: string, z: nat, n: nat)
    requires ScoreSpelling(s, z, n)
    ensures IsScoreText(s) && IntValue(s) == n
  {
    var u := Zeros(z) + DecimalText(n);
    LeadingZerosValue(z, DecimalText(n));
    DecimalTextValue(n);
    assert IsDigit(u[0]);
    assert Unsigned(s) == u;
  }

  /** `isInt({ min: 1, max: 10 })` accepts exactly the score spellings: a '-' sign never passes,
      and leading zeros and a '+' sign always do. */
  lemma ScoreTextShape(s: string)
    ensures IsScoreText(s) <==> exists z: nat, n: nat :: ScoreSpelling(s, z, n)
  {
    if IsScoreText(s) {
      var z, n := ScoreTextSpelled(s);
    }
    if z: nat, n: nat :| ScoreSpelling(s, z, n) {
      SpelledScoreText(s, z, n);
    }
  }

  /** The non-empty test on high and low runs before the trim: a text of blanks passes
      creation's rule chain although it trims to nothing. */
  lemma BlankPointPassesCreate()
    ensures ValidRequiredPoint(Some(" ")) && Trim(" ") == []
  {
    assert TrimStart(" ") == [];
  }

}
