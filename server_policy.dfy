/** The server-side evaluator: a policy value with methods that validate a
    password, detect weak patterns, score it and name its tier.

    Validation builds its result step by step, clearing the validity flag
    alongside every violation it appends; the class checks scan the password
    and stop at the first matching character; the detectors are loops with an
    early return; the score is accumulated in a local variable and clamped
    at the end. */
module ServerPolicy {
  import opened Text
  import opened PasswordRules

  /** The verdict returned by validation (the score and tier are separate
      calls on this side). */
  datatype PasswordValidationResult = PasswordValidationResult(
    isValid: bool,
    errors: seq<Violation>,
    warnings: seq<Warning>)

  /** The default policy: 8 to 128 characters, all four classes, and six
      forbidden words. */
  function DefaultPasswordPolicy(): (p: PasswordPolicy)
    ensures p.WellFormed()
    ensures |p.forbiddenWords| == 6
  {
    PasswordPolicy(
      minLength := 8,
      maxLength := 128,
      requireUppercase := true,
      requireLowercase := true,
      requireNumbers := true,
      requireSpecial := true,
      forbiddenWords := ["password", "123456", "qwerty", "admin", "user", "test"])
  }

  /** A scan over the password that stops at the first character of `cls`. */
  method ScanForClass(password: string, cls: CharClass) returns (found: bool)
    ensures found == Present(cls, password)
  {
    found := false;
    var i := 0;
    while i < |password|
      invariant 0 <= i <= |password|
      invariant forall j :: 0 <= j < i ==> !cls.Matches(password[j])
    {
      if cls.Matches(password[i]) {
        found := true;
        break;
      }
      i := i + 1;
    }
  }

  /** One character-class block of validation: when the policy demands the
      class and the password has no character of it, clear the validity flag
      and append the violation. Upper-case, lower-case and digits are found
      by a scan; the special class by a regular-expression search. */
  method CheckClass(p: PasswordPolicy, cls: CharClass, password: string,
                    errors: seq<Violation>, isValid: bool)
    returns (errors': seq<Violation>, isValid': bool)
    requires isValid == (errors == [])
    ensures errors' == errors + ClassCheck(p, cls, password)
    ensures isValid' == (errors' == [])
  {
    errors', isValid' := errors, isValid;
    if p.Demands(cls) {
      var has: bool;
      if cls == Special {
        has := Present(Special, password);
      } else {
        has := ScanForClass(password, cls);
      }
      if !has {
        isValid' := false;
        errors' := errors' + [Missing(cls)];
      }
    }
  }

  /** The forbidden-word loop of validation: for each listed word, in list
      order, whose lower-cased form the lower-cased password contains, clear
      the validity flag and append the violation. */
  method CheckForbiddenWords(words: seq<string>, lowerPassword: string,
                             errors: seq<Violation>, isValid: bool)
    returns (errors': seq<Violation>, isValid': bool)
    requires isValid == (errors == [])
    ensures errors' == errors + ForbiddenMatches(words, lowerPassword)
    ensures isValid' == (errors' == [])
  {
    errors', isValid' := errors, isValid;
    for k := 0 to |words|
      invariant errors' == errors + ForbiddenMatches(words[..k], lowerPassword)
      invariant isValid' == (errors' == [])
    {
      var word := words[k];
      ForbiddenMatchesStep(words, k, lowerPassword);
      if Contains(lowerPassword, Lower(word)) {
        isValid' := false;
        errors' := errors' + [ForbiddenWord(word)];
      }
    }
    assert words[..|words|] == words;
  }

  /** Validation: the violations in check order, the warnings, and a
      validity flag that holds exactly when there is no violation. */
  method ValidatePassword(p: PasswordPolicy, password: string) returns (result: PasswordValidationResult)
    ensures result.errors == Violations(p, password)
    ensures result.warnings == Warnings(password)
    ensures result.isValid <==> result.errors == []
  {
    var isValid := true;
    var errors: seq<Violation> := [];
    var warnings: seq<Warning> := [];

    if |password| < p.minLength {
      isValid := false;
      errors := errors + [TooShort(p.minLength)];
    }
    if |password| > p.maxLength {
      isValid := false;
      errors := errors + [TooLong(p.maxLength)];
    }
    assert errors == LengthViolations(p, |password|);

    errors, isValid := CheckClass(p, Uppercase, password, errors, isValid);
    errors, isValid := CheckClass(p, Lowercase, password, errors, isValid);
    errors, isValid := CheckClass(p, Digit, password, errors, isValid);
    errors, isValid := CheckClass(p, Special, password, errors, isValid);
    ClassChecksAppend(p, password, LengthViolations(p, |password|));
    assert errors == LengthViolations(p, |password|) + ClassViolations(p, password);

    errors, isValid := CheckForbiddenWords(p.forbiddenWords, Lower(password), errors, isValid);
    assert errors == Violations(p, password);

    var common := HasCommonPatterns(password);
    if common {
      warnings := warnings + [CommonPattern];
    }
    var repeated := HasRepeatedCharacters(password);
    if repeated {
      warnings := warnings + [RepeatedCharacters];
    }

    result := PasswordValidationResult(isValid, errors, warnings);
  }

  /** Tries the patterns in table order and returns at the first one the
      lower-cased password contains. */
  method HasCommonPatterns(password: string) returns (found: bool)
    ensures found == HasCommonPattern(password)
  {
    CommonPatternByContainment(password);
    var lowerPassword := Lower(password);
    var k := 0;
    while k < |SequentialPatterns|
      invariant 0 <= k <= |SequentialPatterns|
      invariant forall j :: 0 <= j < k ==> !Contains(lowerPassword, SequentialPatterns[j])
    {
      if Contains(lowerPassword, SequentialPatterns[k]) {
        return true;
      }
      k := k + 1;
    }
    return false;
  }

  /** Looks for three identical consecutive characters, returning early. */
  method HasRepeatedCharacters(password: string) returns (found: bool)
    ensures found == HasTripleRun(password)
    ensures |password| < 3 ==> !found
  {
    if |password| < 3 {
      return false;
    }
    var i := 0;
    while i < |password| - 2
      invariant 0 <= i <= |password| - 2
      invariant forall j :: 0 <= j < i ==> !TripleAt(password, j)
    {
      if password[i] == password[i + 1] && password[i] == password[i + 2] {
        assert TripleAt(password, i);
        return true;
      }
      i := i + 1;
    }
    return false;
  }

  /** The additive score: length points, fifteen points per class present,
      pattern and repetition penalties, then the clamp into 0..100. */
  method GetPasswordStrength(password: string) returns (strength: int)
    ensures strength == Strength(password)
    ensures 0 <= strength <= 100
  {
    strength := 0;
    if |password| >= 8 {
      strength := strength + 20;
    }
    if |password| >= 12 {
      strength := strength + 10;
    }
    if |password| >= 16 {
      strength := strength + 10;
    }
    assert strength == LengthPoints(|password|);

    var hasUpper := Present(Uppercase, password);
    var hasLower := Present(Lowercase, password);
    var hasNumber := Present(Digit, password);
    var hasSpecial := Present(Special, password);
    if hasUpper {
      strength := strength + 15;
    }
    if hasLower {
      strength := strength + 15;
    }
    if hasNumber {
      strength := strength + 15;
    }
    if hasSpecial {
      strength := strength + 15;
    }
    assert strength == LengthPoints(|password|) + ClassPoints(password);

    var common := HasCommonPatterns(password);
    if common {
      strength := strength - 20;
    }
    var repeated := HasRepeatedCharacters(password);
    if repeated {
      strength := strength - 10;
    }
    assert strength == RawStrength(password);

    if strength < 0 {
      strength := 0;
    }
    if strength > 100 {
      strength := 100;
    }
  }

  /** The tier of a score; total over all integers. */
  function GetPasswordStrengthText(strength: int): (t: Tier)
    ensures IsTierOf(t, strength)
  {
    if strength < 20 then VeryWeak
    else if strength < 40 then Weak
    else if strength < 60 then Fair
    else if strength < 80 then Good
    else if strength < 90 then Strong
    else VeryStrong
  }

  /** Any negative score is Very Weak; any score from 90 up, including
      scores above 100, is Very Strong; a higher score never gets a lower
      tier. */
  lemma StrengthTextBounds(a: int, b: int)
    ensures a < 0 ==> GetPasswordStrengthText(a) == VeryWeak
    ensures a >= 90 ==> GetPasswordStrengthText(a) == VeryStrong
    ensures a <= b ==> GetPasswordStrengthText(a).Rank() <= GetPasswordStrengthText(b).Rank()
  {
    if a <= b {
      TierMonotone(GetPasswordStrengthText(a), a, GetPasswordStrengthText(b), b);
    }
  }

  /** Under the default policy, a password that validates is rated at least
      Fair. */
  lemma DefaultAcceptedIsAtLeastFair(password: string)
    requires Violations(DefaultPasswordPolicy(), password) == []
    ensures Strength(password) >= 50
    ensures GetPasswordStrengthText(Strength(password)).Rank() >= Fair.Rank()
  {
    AcceptedPasswordIsAtLeastFair(DefaultPasswordPolicy(), password, GetPasswordStrengthText(Strength(password)));
  }
}
