/** The client-side evaluator: one call that validates a password against
    the built-in default policy and also scores it and names its tier, plus
    the colour hint for a score.

    Validation pushes violations and warnings onto local lists and derives
    validity from the violation list at the end; the class checks are
    regular-expression tests; the pattern check is a `some` over the pattern
    table; the repetition check is an indexed loop with an early return; the
    score is accumulated in a local variable and clamped at the end. */
module ClientValidation {
  import opened Text
  import opened PasswordRules

  /** The verdict: validity, score, tier, violations and warnings. */
  datatype PasswordValidationResult = PasswordValidationResult(
    isValid: bool,
    strength: int,
    level: Tier,
    errors: seq<Violation>,
    warnings: seq<Warning>)

  /** The only policy the client evaluates against. */
  const DefaultPasswordPolicy: PasswordPolicy := PasswordPolicy(
    minLength := 8,
    maxLength := 128,
    requireUppercase := true,
    requireLowercase := true,
    requireNumbers := true,
    requireSpecial := true,
    forbiddenWords := ["password", "123456", "qwerty", "admin", "user", "test"])

  /** The default policy is sensible: 8 <= 128, and its six forbidden words
      are non-empty and already lower-case. */
  lemma DefaultPolicyWellFormed()
    ensures DefaultPasswordPolicy.WellFormed()
    ensures |DefaultPasswordPolicy.forbiddenWords| == 6
  {
  }

  /** What the default policy accepts: 8 to 128 characters, a character of
      each of the four classes, and none of the six words in the lower-cased
      password. */
  lemma DefaultPolicyAccepts(s: string)
    ensures Violations(DefaultPasswordPolicy, s) == [] <==>
              && 8 <= |s| <= 128
              && Present(Uppercase, s) && Present(Lowercase, s) && Present(Digit, s) && Present(Special, s)
              && forall w :: w in DefaultPasswordPolicy.forbiddenWords ==> !Contains(Lower(s), w)
  {
    var p := DefaultPasswordPolicy;
    DefaultPolicyWellFormed();
    var len := LengthViolations(p, |s|);
    var cls := ClassViolations(p, s);
    var fw := ForbiddenMatches(p.forbiddenWords, Lower(s));
    assert Violations(p, s) == len + cls + fw;
    ClassViolationsShape(p, s);
    if forall w :: w in p.forbiddenWords ==> !Contains(Lower(s), w) {
      NoForbiddenMatches(p.forbiddenWords, Lower(s));
    } else {
      var w :| w in p.forbiddenWords && Contains(Lower(s), w);
      ForbiddenMatchesComplete(p.forbiddenWords, Lower(s), w);
    }
  }

  /** Validation, score and tier of `password` under the default policy. */
  method ValidatePasswordClient(password: string) returns (result: PasswordValidationResult)
    ensures result.errors == Violations(DefaultPasswordPolicy, password)
    ensures result.warnings == Warnings(password)
    ensures result.isValid <==> result.errors == []
    ensures result.strength == Strength(password) && 0 <= result.strength <= 100
    ensures result.level == GetPasswordStrengthText(result.strength)
    ensures IsTierOf(result.level, result.strength)
  {
    var policy := DefaultPasswordPolicy;
    var errors: seq<Violation> := [];
    var warnings: seq<Warning> := [];

    if |password| < policy.minLength {
      errors := errors + [TooShort(policy.minLength)];
    }
    if |password| > policy.maxLength {
      errors := errors + [TooLong(policy.maxLength)];
    }
    ghost var lengthChecked := errors;
    assert lengthChecked == LengthViolations(policy, |password|);

    errors := PushMissing(policy.requireUppercase, Uppercase, password, errors);
    errors := PushMissing(policy.requireLowercase, Lowercase, password, errors);
    errors := PushMissing(policy.requireNumbers, Digit, password, errors);
    errors := PushMissing(policy.requireSpecial, Special, password, errors);
    ClassChecksAppend(policy, password, lengthChecked);
    errors := PushForbiddenWords(policy.forbiddenWords, Lower(password), errors);

    if HasCommonPatterns(password) {
      warnings := warnings + [CommonPattern];
    }
    var repeated := HasRepeatedCharacters(password);
    if repeated {
      warnings := warnings + [RepeatedCharacters];
    }

    var strength := CalculatePasswordStrength(password);
    var level := GetPasswordStrengthText(strength);

    result := PasswordValidationResult(|errors| == 0, strength, level, errors, warnings);
  }

  /** One class block of validation: push the violation when the class is
      required and the regular-expression test finds no character of it. */
  method PushMissing(required: bool, cls: CharClass, password: string, errors: seq<Violation>)
    returns (errors': seq<Violation>)
    ensures errors' == errors + (if required && !Present(cls, password) then [Missing(cls)] else [])
  {
    errors' := errors;
    if required && !Present(cls, password) {
      errors' := errors' + [Missing(cls)];
    }
  }

  /** The forbidden-word loop: push one violation per listed word whose
      lower-cased form the lower-cased password contains, in list order. */
  method PushForbiddenWords(words: seq<string>, lowerPassword: string, errors: seq<Violation>)
    returns (errors': seq<Violation>)
    ensures errors' == errors + ForbiddenMatches(words, lowerPassword)
  {
    errors' := errors;
    for k := 0 to |words|
      invariant errors' == errors + ForbiddenMatches(words[..k], lowerPassword)
    {
      var word := words[k];
      ForbiddenMatchesStep(words, k, lowerPassword);
      if Contains(lowerPassword, Lower(word)) {
        errors' := errors' + [ForbiddenWord(word)];
      }
    }
    assert words[..|words|] == words;
  }

  /** Some listed pattern is a substring of the lower-cased password. */
  function HasCommonPatterns(password: string): (found: bool)
    ensures found == HasCommonPattern(password)
  {
    CommonPatternByContainment(password);
    var lowerPassword := Lower(password);
    exists k :: 0 <= k < |SequentialPatterns| && Contains(lowerPassword, SequentialPatterns[k])
  }

  /** Looks for three identical consecutive characters, returning early. */
  method HasRepeatedCharacters(password: string) returns (found: bool)
    ensures found == HasTripleRun(password)
    ensures |password| < 3 ==> !found
  {
    if |password| < 3 {
      return false;
    }
    for i := 0 to |password| - 2
      invariant forall j :: 0 <= j < i ==> !TripleAt(password, j)
    {
      if password[i] == password[i + 1] && password[i] == password[i + 2] {
        assert TripleAt(password, i);
        return true;
      }
    }
    return false;
  }

  /** The additive score, clamped into 0..100 with `max(0, min(100, _))`. */
  method CalculatePasswordStrength(password: string) returns (score: int)
    ensures score == Strength(password)
    ensures 0 <= score <= 100
  {
    var strength := 0;
    if |password| >= 8 {
      strength := strength + 20;
    }
    if |password| >= 12 {
      strength := strength + 10;
    }
    if |password| >= 16 {
      strength := strength + 10;
    }
    assert strength == LengthPoints(|password|);

    var hasUpper := Present(Uppercase, password);
    var hasLower := Present(Lowercase, password);
    var hasNumber := Present(Digit, password);
    var hasSpecial := Present(Special, password);
    if hasUpper {
      strength := strength + 15;
    }
    if hasLower {
      strength := strength + 15;
    }
    if hasNumber {
      strength := strength + 15;
    }
    if hasSpecial {
      strength := strength + 15;
    }
    assert strength == LengthPoints(|password|) + ClassPoints(password);

    if HasCommonPatterns(password) {
      strength := strength - 20;
    }
    var repeated := HasRepeatedCharacters(password);
    if repeated {
      strength := strength - 10;
    }
    assert strength == RawStrength(password);

    var capped := if strength < 100 then strength else 100;
    score := if 0 < capped then capped else 0;
  }

  /** The tier of a score; total over all integers. */
  function GetPasswordStrengthText(strength: int): (t: Tier)
    ensures IsTierOf(t, strength)
  {
    if strength < 20 then VeryWeak
    else if strength < 40 then Weak
    else if strength < 60 then Fair
    else if strength < 80 then Good
    else if strength < 90 then Strong
    else VeryStrong
  }

  /** The colour classes of the six tiers, lowest first. */
  const StrengthColors: seq<string> :=
    ["bg-red-500", "bg-orange-500", "bg-yellow-500", "bg-blue-500", "bg-green-500", "bg-emerald-600"]

  /** The colour hint of a score: the colour of its tier. */
  function GetPasswordStrengthColor(strength: int): (color: string)
    ensures color == StrengthColors[GetPasswordStrengthText(strength).Rank()]
  {
    if strength < 20 then "bg-red-500"
    else if strength < 40 then "bg-orange-500"
    else if strength < 60 then "bg-yellow-500"
    else if strength < 80 then "bg-blue-500"
    else if strength < 90 then "bg-green-500"
    else "bg-emerald-600"
  }

  /** Two scores get the same colour exactly when they get the same tier. */
  lemma ColorsFollowTiers(a: int, b: int)
    ensures GetPasswordStrengthColor(a) == GetPasswordStrengthColor(b)
            <==> GetPasswordStrengthText(a) == GetPasswordStrengthText(b)
  {
    var ra, rb := GetPasswordStrengthText(a).Rank(), GetPasswordStrengthText(b).Rank();
    if ra != rb {
      assert StrengthColors[ra] != StrengthColors[rb] by {
        var ca, cb := StrengthColors[ra], StrengthColors[rb];
        assert |ca| != |cb| || ca[3] != cb[3];
      }
    }
  }
}
