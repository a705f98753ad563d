/** Concrete verdicts of the client evaluator under its default policy.
    Each lemma fixes one password and states its violations, warnings,
    score or tier; by the contract of
    `ClientValidation.ValidatePasswordClient` these are the fields of the
    result it returns for that password. */
module Scenarios {
  import opened Text
  import opened PasswordRules
  import opened ClientValidation

  /** The empty password: the minimum-length violation and all four class
      violations, in check order; no warning; score 0, Very Weak. */
  lemma EmptyPasswordVerdict()
    ensures Violations(DefaultPasswordPolicy, "")
            == [TooShort(8), Missing(Uppercase), Missing(Lowercase), Missing(Digit), Missing(Special)]
    ensures Warnings("") == []
    ensures Strength("") == 0
    ensures GetPasswordStrengthText(Strength("")) == VeryWeak
  {
    TripleRunFacts("");
    assert !HasCommonPattern("");
    assert ForbiddenMatches(DefaultPasswordPolicy.forbiddenWords, Lower("")) == [];
  }

  /** "Abcdef1!" satisfies the default policy: eight characters, all four
      classes, no forbidden word. */
  lemma MixedEightCharacterIsValid()
    ensures Violations(DefaultPasswordPolicy, "Abcdef1!") == []
  {
    AllClassesPresent("Abcdef1!", 0, 1, 6, 7);
    MixedEightCharacterNoForbiddenWord();
    DefaultPolicyAccepts("Abcdef1!");
  }

  lemma MixedEightCharacterLowered()
    ensures Lower("Abcdef1!") == "abcdef1!"
  {
  }

  lemma MixedEightCharacterNoForbiddenWord()
    ensures ForbiddenMatches(DefaultPasswordPolicy.forbiddenWords, Lower("Abcdef1!")) == []
  {
    MixedEightCharacterLowered();
    NoDefaultForbiddenWord("abcdef1!", 'p', '2', 'q', 'm', 'u', 't');
  }

  /** Its lower-cased form begins with the listed pattern "abc", and it has
      no run of three: one pattern warning. */
  lemma MixedEightCharacterWarnings()
    ensures HasCommonPattern("Abcdef1!") && !HasTripleRun("Abcdef1!")
    ensures Warnings("Abcdef1!") == [CommonPattern]
  {
    var s := "Abcdef1!";
    assert Lower(s)[0..3] == "abc";
    assert PatternAt(s, 0);
    forall i | 0 <= i < |s| - 2 ensures !TripleAt(s, i) {
      assert s[i] != s[i + 1];
    }
  }

  /** So it scores 20 + 60 - 20 = 60 points: Good, not Strong. */
  lemma MixedEightCharacterStrength()
    ensures Strength("Abcdef1!") == 60
    ensures GetPasswordStrengthText(Strength("Abcdef1!")) == Good
  {
    AllClassesPresent("Abcdef1!", 0, 1, 6, 7);
    MixedEightCharacterWarnings();
  }

  /** "password": missing upper-case, digit and special, and the forbidden
      word itself, in that order. */
  lemma ForbiddenWordViolations()
    ensures Violations(DefaultPasswordPolicy, "password")
            == [Missing(Uppercase), Missing(Digit), Missing(Special), ForbiddenWord("password")]
  {
    LowercaseOnlyClassViolations(DefaultPasswordPolicy, "password");
    PasswordMatchesOnlyItself();
  }

  /** A non-empty password of lower-case letters only, under a policy that
      demands upper-case letters, digits and special characters, lacks
      exactly those three classes. */
  lemma LowercaseOnlyClassViolations(p: PasswordPolicy, s: string)
    requires p.requireUppercase && p.requireNumbers && p.requireSpecial
    requires s != [] && forall i :: 0 <= i < |s| ==> IsLower(s[i])
    ensures ClassViolations(p, s) == [Missing(Uppercase), Missing(Digit), Missing(Special)]
  {
    assert Lowercase.Matches(s[0]);
    forall i | 0 <= i < |s| ensures !IsSpecial(s[i]) {
      SpecialCharsArePunctuation(s[i]);
    }
  }

  lemma PasswordMatchesOnlyItself()
    ensures ForbiddenMatches(DefaultPasswordPolicy.forbiddenWords, Lower("password")) == [ForbiddenWord("password")]
  {
    LowerKeepsLowercase("password");
    assert OccursAt("password", "password", 0);
    PasswordContainsNoOtherWord();
  }

  lemma PasswordContainsNoOtherWord()
    ensures ForbiddenMatches(DefaultPasswordPolicy.forbiddenWords[1..], "password") == []
  {
    var lowered := "password";
    AbsentCharacterExcludes(lowered, "123456", '1');
    AbsentCharacterExcludes(lowered, "qwerty", 'q');
    AbsentCharacterExcludes(lowered, "admin", 'i');
    AbsentCharacterExcludes(lowered, "user", 'u');
    AbsentCharacterExcludes(lowered, "test", 't');
    DefaultPolicyWellFormed();
    assert DefaultPasswordPolicy.forbiddenWords[1..] == ["123456", "qwerty", "admin", "user", "test"];
    NoForbiddenMatches(DefaultPasswordPolicy.forbiddenWords[1..], lowered);
  }

  /** Lower-casing leaves a string of lower-case letters as it is. */
  lemma LowerKeepsLowercase(s: string)
    requires forall i :: 0 <= i < |s| ==> IsLower(s[i])
    ensures Lower(s) == s
  {
  }

  /** "Aaa111!!": the repetition check is case-sensitive, so "Aaa" is not a
      run, but "111" is. */
  lemma RepeatedDigits()
    ensures !TripleAt("Aaa111!!", 0) && TripleAt("Aaa111!!", 3)
    ensures HasTripleRun("Aaa111!!")
  {
    assert TripleAt("Aaa111!!", 3);
  }

  /** A password with a character of each class at the given positions is
      free of class violations and earns all 60 class points. */
  lemma AllClassesPresent(s: string, u: nat, l: nat, d: nat, x: nat)
    requires u < |s| && l < |s| && d < |s| && x < |s|
    requires IsUpper(s[u]) && IsLower(s[l]) && IsDigit(s[d]) && IsSpecial(s[x])
    ensures ClassViolations(DefaultPasswordPolicy, s) == []
    ensures ClassPoints(s) == 60
  {
    assert Uppercase.Matches(s[u]) && Lowercase.Matches(s[l]) && Digit.Matches(s[d]) && Special.Matches(s[x]);
  }

  /** A lower-cased password that lacks one given character of each default
      forbidden word contains none of them. */
  lemma NoDefaultForbiddenWord(lowered: string, c0: char, c1: char, c2: char, c3: char, c4: char, c5: char)
    requires c0 in "password" && c0 !in lowered
    requires c1 in "123456" && c1 !in lowered
    requires c2 in "qwerty" && c2 !in lowered
    requires c3 in "admin" && c3 !in lowered
    requires c4 in "user" && c4 !in lowered
    requires c5 in "test" && c5 !in lowered
    ensures ForbiddenMatches(DefaultPasswordPolicy.forbiddenWords, lowered) == []
  {
    DefaultPolicyWellFormed();
    AbsentCharacterExcludes(lowered, "password", c0);
    AbsentCharacterExcludes(lowered, "123456", c1);
    AbsentCharacterExcludes(lowered, "qwerty", c2);
    AbsentCharacterExcludes(lowered, "admin", c3);
    AbsentCharacterExcludes(lowered, "user", c4);
    AbsentCharacterExcludes(lowered, "test", c5);
    NoForbiddenMatches(DefaultPasswordPolicy.forbiddenWords, lowered);
  }
}
