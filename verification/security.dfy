/** The input checks of the security page in profile/profile.js: the new
    password in `savePassword` and the six-digit code in `verify2FA`. The
    account update itself is a call to the hosted auth service and appears
    only as its outcome. */
module Security {
  import opened Text

  /** A notification: its message and its kind ('success', 'error', ...). */
  datatype Notice = Notice(message: string, kind: string)

  const MinPasswordLength := 8

  const Mismatch := Notice("Passwords do not match.", "error")
  const TooShort := Notice("Password must be at least 8 characters long.", "error")
  const PasswordChanged := Notice("Password changed successfully!", "success")
  const PasswordFailed := Notice("Error changing password. Please try again.", "error")

  /** What `savePassword` ends with: the notice, whether the update was
      requested, and the new "last changed" text if it succeeded. */
  datatype PasswordOutcome = PasswordOutcome(notice: Notice, updateCalled: bool, lastChanged: string)

  /** `savePassword`: a mismatch is reported before the length; only a
      matching password of eight or more characters reaches the update,
      whose failure `updateFailed` says. */
  function SavePassword(lastChanged: string, newPassword: string, confirmPassword: string, updateFailed: bool): (r: PasswordOutcome)
    ensures r.updateCalled <==> newPassword == confirmPassword && |newPassword| >= MinPasswordLength
    ensures newPassword != confirmPassword ==> r == PasswordOutcome(Mismatch, false, lastChanged)
    ensures newPassword == confirmPassword && |newPassword| < MinPasswordLength ==> r == PasswordOutcome(TooShort, false, lastChanged)
    ensures r.updateCalled ==> (r.notice == PasswordChanged <==> !updateFailed)
    ensures r.lastChanged != lastChanged ==> r.updateCalled && !updateFailed && r.lastChanged == "Just now"
    ensures r.updateCalled && !updateFailed ==> r.lastChanged == "Just now"
    ensures r.updateCalled && updateFailed ==> r.notice == PasswordFailed && r.lastChanged == lastChanged
  {
    if newPassword != confirmPassword then PasswordOutcome(Mismatch, false, lastChanged)
    else if |newPassword| < MinPasswordLength then PasswordOutcome(TooShort, false, lastChanged)
    else if updateFailed then PasswordOutcome(PasswordFailed, true, lastChanged)
    else PasswordOutcome(PasswordChanged, true, "Just now")
  }

  /** `code.length === 6 && /^\d{6}$/.test(code)`. */
  predicate ValidCode(code: string)
  {
    |code| == 6 && forall i :: 0 <= i < |code| ==> IsDigit(code[i])
  }

  const InvalidCode := Notice("Please enter a valid 6-digit code.", "error")
  const TwoFactorEnabled := Notice("Two-factor authentication enabled successfully!", "success")

  /** What `verify2FA` ends with: the notice, the status badge text, and the
      code input. */
  datatype TwoFactor = TwoFactor(notice: Notice, badge: string, input: string)

  function Verify2FA(badge: string, code: string): (r: TwoFactor)
    ensures ValidCode(code) ==> r == TwoFactor(TwoFactorEnabled, "Active", "")
    ensures !ValidCode(code) ==> r == TwoFactor(InvalidCode, badge, code)
  {
    if |code| != 6 || !ValidCode(code) then TwoFactor(InvalidCode, badge, code)
    else TwoFactor(TwoFactorEnabled, "Active", "")
  }

  function Pow10(w: nat): (p: nat)
    ensures p >= 1
  {
    if w == 0 then 1 else 10 * Pow10(w - 1)
  }

  /** The last `w` decimal digits of `n`, zero-padded. */
  function PadDigits(n: nat, w: nat): (s: string)
    ensures |s| == w
    ensures forall i :: 0 <= i < |s| ==> IsDigit(s[i])
  {
    if w == 0 then [] else PadDigits(n / 10, w - 1) + [DigitChar(n % 10)]
  }

  /** Reading a padded rendering back gives the number, when it fits. */
  lemma {:induction false} PadDigitsValue(n: nat, w: nat)
    requires n < Pow10(w)
    ensures DigitsValue(PadDigits(n, w)) == n
  {
    if w > 0 {
      var s := PadDigits(n, w);
      assert s[..|s| - 1] == PadDigits(n / 10, w - 1);
      assert n / 10 < Pow10(w - 1);
      PadDigitsValue(n / 10, w - 1);
    }
  }

  /** A digit string of length `w` is the padded rendering of its value,
      which is below 10^w. */
  lemma {:induction false} DigitsPad(s: string)
    requires forall i :: 0 <= i < |s| ==> IsDigit(s[i])
    ensures DigitsValue(s) < Pow10(|s|)
    ensures PadDigits(DigitsValue(s), |s|) == s
  {
    if |s| > 0 {
      var init := s[..|s| - 1];
      var d := s[|s| - 1] as int - '0' as int;
      DigitsPad(init);
      var v := DigitsValue(s);
      assert v == 10 * DigitsValue(init) + d;
      assert v / 10 == DigitsValue(init) && v % 10 == d;
      assert DigitChar(d) == s[|s| - 1];
      assert s == init + [s[|s| - 1]];
    }
  }

  /** The accepted codes are exactly the six-digit renderings of the numbers
      below one million. */
  lemma ValidCodeIff(code: string)
    ensures ValidCode(code) <==> exists n :: 0 <= n < 1000000 && code == PadDigits(n, 6)
  {
    if ValidCode(code) {
      DigitsPad(code);
      assert Pow10(6) == 1000000;
      assert code == PadDigits(DigitsValue(code), 6);
    }
  }

  /** Every number below one million gives an accepted code that reads back
      as the number. */
  lemma CodeRoundTrip(n: nat)
    requires n < 1000000
    ensures ValidCode(PadDigits(n, 6))
    ensures DigitsValue(PadDigits(n, 6)) == n
  {
    assert Pow10(6) == 1000000;
    PadDigitsValue(n, 6);
  }
}
