# Password policy evaluator

This project models the password-policy evaluator of a web application.
The evaluator exists twice:

- `utils/password_policy.go` on the server. A configurable policy validates a password. Separate calls score it and name its tier.
- `frontend/src/utils/passwordValidation.ts` in the browser. One call validates against the built-in default policy, then attaches the score and the tier.

A verdict has three parts:

- **Hard violations, in a fixed order.** They come from: too short, too long, a missing upper-case letter, a missing lower-case letter, a missing digit, a missing special character, then one violation per forbidden word the lower-cased password contains. They are kept in the order of the forbidden-word list.
- **Advisory warnings.** One means a listed three-character run occurs (the runs are in a table of 40). The other means three identical characters occur in a row.
- **A score and a tier.** The score is additive, clamped to 0..100 and mapped to one of six tiers.

Modules:

- `Text` (text.dfy): the ASCII character classes, the special-character set of both regular expressions, lower-casing and substring containment.
- `PasswordRules` (password_rules.dfy): the shared part.
  - The value types: policy, violation, warning, tier.
  - The pattern table.
  - Reference definitions of the verdict: `Violations`, `Warnings`, `Strength` and `IsTierOf`.
  - The properties of the verdict: check order, iff characterisations of each check, length boundaries, the structure of the pattern table, score bounds, tier uniqueness and monotonicity.
- `ServerPolicy` (server_policy.dfy): the Go side as imperative code.
  - `ValidatePassword` builds its result step by step. It clears the validity flag with every appended violation, scans with early `break` for the letter and digit classes, and loops over the forbidden words.
  - The detectors are loops with an early return.
  - The score is accumulated and then clamped.
  - Each method is proved to compute the reference definitions.
- `ClientValidation` (client_validation.dfy): the TypeScript side.
  - The fixed default policy.
  - `ValidatePasswordClient`, which pushes onto local lists and returns validity, violations, warnings, score and tier.
  - The `.some`-style pattern test, the indexed repetition loop, the score, the tier map and the colour map.
- `Scenarios` (scenarios.dfy): the concrete verdicts of the client on `""`, `"Abcdef1!"`, `"password"` and `"Aaa111!!"`.
- `Agreement` (agreement.dfy): the client's single call equals, field by field, the server's validation plus score plus tier under the server's default policy.

Violations and warnings are symbolic values. Each carries the parameter its message would show: the bound, the class or the word. The tier is a datatype whose `Label()` is the exact text both implementations return. The policy's integers are unconstrained, as in the code. A policy whose minimum exceeds its maximum is applied as given.

Three cases the code computes differently from what one might expect:

- `"Abcdef1!"` is not pattern-free. Its lower-cased form starts with `abc`, which is in the table. So it gets the pattern warning and scores 20 + 60 - 20 = 60, which is Good, not Strong (`Scenarios.MixedEightCharacterWarnings`, `Scenarios.MixedEightCharacterStrength`).
- `"Aaa111!!"` does trigger the repetition warning, but not through `Aaa`. The comparison is case-sensitive. The run that triggers it is `111` (`Scenarios.RepeatedDigits`).
- The code nowhere enforces that the minimum is positive and no larger than the maximum. `PasswordRules.MisconfiguredPolicyReportsBoth` shows what such a policy reports.

## Model

| member | source | states |
|---|---|---|
| Text.SpecialCharsArePunctuation | utils/password_policy.go:98 | the special-character bracket set is exactly the printable ASCII punctuation: not a letter, digit or space |
| Text.ToLower | utils/password_policy.go:105 | lower-casing maps letters to lower-case letters, moves upper-case letters by their alphabet offset and leaves every other character alone |
| Text.Lower | utils/password_policy.go:105 | lower-casing a string keeps its length and lower-cases each character |
| Text.Present | utils/password_policy.go:57-61 | a scan or a bracket-expression test finds a character of the class only in a non-empty password; the same test is used at utils/password_policy.go:98-99 and 168-171 |
| Text.Contains | utils/password_policy.go:107 | substring containment as `strings.Contains` / `.includes` (also at utils/password_policy.go:133): a word longer than the password never occurs |
| Text.LowerIdempotent | utils/password_policy.go:107 | lower-casing an already lower-cased word changes nothing |
| Text.ContainsEmpty | utils/password_policy.go:107 | the empty word occurs in every string, so an empty forbidden word rejects every password |
| Text.AbsentCharacterExcludes | utils/password_policy.go:107 | a word with a character the password lacks is not a substring of it |
| PasswordRules.ForbiddenMatches | utils/password_policy.go:105-111 | at most one forbidden-word violation per list entry, and each names a listed word whose lower-case form occurs in the lower-cased password |
| PasswordRules.Violations | utils/password_policy.go:45-111 | the verdict is the length, class and word checks in sequence, at most two length, four class and one violation per listed word |
| PasswordRules.Warnings | utils/password_policy.go:113-119 | at most two warnings; the pattern warning iff a common pattern occurs, the repetition warning iff a run of three occurs |
| PasswordRules.ClassPoints | utils/password_policy.go:168-184 | fifteen points per class present: a multiple of 15 in 0..60, and 60 exactly when all four classes are present |
| PasswordRules.LengthPoints | utils/password_policy.go:158-166 | the length points are 0, 20, 30 or 40, cumulative at 8, 12 and 16 characters |
| PasswordRules.RawStrength | utils/password_policy.go:156-191 | the score before the clamp lies in -30..100 |
| PasswordRules.Clamp | utils/password_policy.go:193-198 | the clamp lands in 0..100 and is the identity inside that range |
| PasswordRules.Strength | utils/password_policy.go:155-201 | the score lies in 0..100; since the raw score never exceeds 100, only the lower clamp ever applies |
| PasswordRules.ClassViolationsShape | utils/password_policy.go:55-103 | a class violation is reported only for a demanded, absent class; every demanded, absent class is reported; class violations are in check order |
| PasswordRules.ClassCheckShape | utils/password_policy.go:55-67 | one class block reports at most its own class, and only when demanded and absent |
| PasswordRules.ClassCheckReported | utils/password_policy.go:63-66 | a demanded, absent class is always reported |
| PasswordRules.CheckOrderConcat | utils/password_policy.go:45-111 | appending checks of later stages keeps the check order |
| PasswordRules.ViolationsInCheckOrder | utils/password_policy.go:45-111 | violations come in the order min length, max length, upper, lower, digit, special, forbidden words |
| PasswordRules.ViolationIn | utils/password_policy.go:45-111 | every check runs without short-circuit: a violation is in the verdict iff it comes from the length, class or word checks |
| PasswordRules.LengthViolationsReported | utils/password_policy.go:45-53 | too short iff the length is strictly below the minimum, too long iff strictly above the maximum, each carrying its bound |
| PasswordRules.ClassViolationsReported | utils/password_policy.go:55-103 | a missing-class violation is reported iff the policy demands the class and no character of it is present |
| PasswordRules.ForbiddenWordsReported | utils/password_policy.go:105-111 | a forbidden-word violation is reported iff the word is listed and its lower-case form occurs in the lower-cased password |
| PasswordRules.ForbiddenMatchesComplete | utils/password_policy.go:106-110 | every listed word that occurs is reported |
| PasswordRules.ForbiddenMatchesAppend | utils/password_policy.go:106-110 | the word violations of a concatenated list are those of its parts, in list order |
| PasswordRules.NoForbiddenMatches | utils/password_policy.go:106-110 | a list none of whose words occurs yields no violation |
| PasswordRules.ForbiddenMatchesStep | utils/password_policy.go:106-110 | one more loop iteration appends that word's violation, if any |
| PasswordRules.ClassChecksAppend | utils/password_policy.go:55-103 | the four class blocks in sequence append the class violations |
| PasswordRules.MaxLengthBoundary | utils/password_policy.go:50-53 | length exactly the maximum gives no too-long violation; one more gives exactly one |
| PasswordRules.MinLengthBoundary | utils/password_policy.go:45-48 | length exactly the minimum gives no too-short violation; one fewer gives exactly one |
| PasswordRules.MisconfiguredPolicyReportsBoth | utils/password_policy.go:45-53 | under a minimum above the maximum, a length in between is reported too short and then too long |
| PasswordRules.PresentPersists | utils/password_policy.go:57-61 | a class present in a password stays present after appending a character |
| PasswordRules.AppendingNeverAddsClassViolations | utils/password_policy.go:55-103 | appending a character never adds a class violation |
| PasswordRules.AppendingMissingClassRemovesViolation | utils/password_policy.go:55-103 | appending a character of a demanded, missing class removes that violation |
| PasswordRules.PatternCharacters | utils/password_policy.go:125-129 | every table entry has three characters, spelling consecutive characters of the alphabet, of 1..0 or of the top keyboard row |
| PasswordRules.SequentialPatternsAreRuns | utils/password_policy.go:125-129 | the table is exactly the 24 alphabet windows, the 8 digit-row windows and the 8 top-row windows, in that order |
| PasswordRules.CommonPatternByContainment | utils/password_policy.go:131-138 | some three-character window of the lower-cased password is in the table iff some table entry is a substring of it |
| PasswordRules.TripleRunFacts | utils/password_policy.go:141-153 | a string shorter than three never repeats; the comparison is case-sensitive |
| PasswordRules.TierRank | utils/password_policy.go:203-218 | the tier of a score is fixed by the ranges below 20, 40, 60, 80, 90 and from 90 up |
| PasswordRules.TierUnique | utils/password_policy.go:203-218 | a score has exactly one tier |
| PasswordRules.TierMonotone | utils/password_policy.go:203-218 | a higher score never has a lower tier |
| PasswordRules.LabelsIdentifyTiers | utils/password_policy.go:205-216 | the six tier labels are distinct |
| PasswordRules.AcceptedPasswordIsAtLeastFair | utils/password_policy.go:45-190 | under a policy demanding all four classes and at least 8 characters, an accepted password scores at least 50 and is rated at least Fair |
| ServerPolicy.DefaultPasswordPolicy | utils/password_policy.go:20-30 | the default policy is well formed (0 < 8 <= 128, non-empty lower-case words) and forbids six words |
| ServerPolicy.ScanForClass | utils/password_policy.go:56-62 | the scan with early `break` finds a character of the class iff one is present |
| ServerPolicy.CheckClass | utils/password_policy.go:55-103 | one class block appends exactly that class's violation and keeps the validity flag equal to "no violation yet" |
| ServerPolicy.CheckForbiddenWords | utils/password_policy.go:105-111 | the word loop appends exactly the word violations in list order and keeps the flag in step |
| ServerPolicy.ValidatePassword | utils/password_policy.go:38-122 | errors are exactly the reference violations in check order, warnings exactly the reference warnings, and `IsValid` holds iff there is no error |
| ServerPolicy.HasCommonPatterns | utils/password_policy.go:124-139 | true iff some three-character window of the lower-cased password is a listed pattern |
| ServerPolicy.HasRepeatedCharacters | utils/password_policy.go:141-153 | false below three characters; otherwise true iff three identical characters occur in a row |
| ServerPolicy.GetPasswordStrength | utils/password_policy.go:155-201 | the score is the reference score and lies in 0..100 |
| ServerPolicy.GetPasswordStrengthText | utils/password_policy.go:203-218 | the returned tier is the tier of the score under the thresholds 20/40/60/80/90, for every integer |
| ServerPolicy.StrengthTextBounds | utils/password_policy.go:203-218 | negative scores are Very Weak, scores from 90 up (even above 100) are Very Strong, and the map is monotone |
| ServerPolicy.DefaultAcceptedIsAtLeastFair | utils/password_policy.go:20-30 | a password the default policy accepts scores at least 50 and is rated at least Fair |
| ClientValidation.DefaultPolicyWellFormed | frontend/src/utils/passwordValidation.ts:19-27 | the client's default policy is well formed and forbids six words |
| ClientValidation.DefaultPolicyAccepts | frontend/src/utils/passwordValidation.ts:34-63 | the default policy accepts a password iff it has 8..128 characters, all four classes and none of the six words in lower case |
| ClientValidation.ValidatePasswordClient | frontend/src/utils/passwordValidation.ts:29-83 | errors and warnings are the reference verdict under the default policy, `isValid` iff no error, `strength` the reference score in 0..100, `level` the tier of that score |
| ClientValidation.PushMissing | frontend/src/utils/passwordValidation.ts:42-56 | one class test pushes the class violation exactly when the class is required and absent |
| ClientValidation.PushForbiddenWords | frontend/src/utils/passwordValidation.ts:58-63 | the word loop pushes exactly the word violations in list order |
| ClientValidation.HasCommonPatterns | frontend/src/utils/passwordValidation.ts:85-94 | `.some` over the table agrees with the window definition of a common pattern |
| ClientValidation.HasRepeatedCharacters | frontend/src/utils/passwordValidation.ts:96-105 | false below three characters; otherwise true iff three identical characters occur in a row |
| ClientValidation.CalculatePasswordStrength | frontend/src/utils/passwordValidation.ts:107-128 | the score is the reference score and lies in 0..100 |
| ClientValidation.GetPasswordStrengthText | frontend/src/utils/passwordValidation.ts:130-137 | the returned tier is the tier of the score, for every integer |
| ClientValidation.GetPasswordStrengthColor | frontend/src/utils/passwordValidation.ts:139-146 | the colour is the colour of the score's tier |
| ClientValidation.ColorsFollowTiers | frontend/src/utils/passwordValidation.ts:139-146 | two scores share a colour iff they share a tier |
| Scenarios.EmptyPasswordVerdict | frontend/src/utils/passwordValidation.ts:29-83 | `""` gives exactly too-short(8) and the four class violations in order, no warning, score 0, Very Weak |
| Scenarios.MixedEightCharacterIsValid | frontend/src/utils/passwordValidation.ts:34-63 | `"Abcdef1!"` has no violation under the default policy |
| Scenarios.MixedEightCharacterNoForbiddenWord | frontend/src/utils/passwordValidation.ts:58-63 | `"Abcdef1!"` contains none of the six forbidden words |
| Scenarios.MixedEightCharacterWarnings | frontend/src/utils/passwordValidation.ts:85-105 | `"Abcdef1!"` contains the listed pattern `abc` and no run of three: one pattern warning |
| Scenarios.MixedEightCharacterStrength | frontend/src/utils/passwordValidation.ts:107-137 | `"Abcdef1!"` scores 60 and is Good |
| Scenarios.ForbiddenWordViolations | frontend/src/utils/passwordValidation.ts:42-63 | `"password"` lacks upper-case, digit and special, and contains the forbidden word itself, in that order |
| Scenarios.LowercaseOnlyClassViolations | frontend/src/utils/passwordValidation.ts:42-56 | a password of lower-case letters only lacks exactly the upper-case, digit and special classes |
| Scenarios.PasswordMatchesOnlyItself | frontend/src/utils/passwordValidation.ts:58-63 | of the six default words, `"password"` contains only `password` |
| Scenarios.RepeatedDigits | frontend/src/utils/passwordValidation.ts:96-105 | in `"Aaa111!!"` the run `Aaa` does not count (case-sensitive) but `111` does |
| Agreement.DefaultPoliciesAgree | frontend/src/utils/passwordValidation.ts:19-27 | the client's default policy is the server's default policy |
| Agreement.StrengthTextsAgree | frontend/src/utils/passwordValidation.ts:130-137 | both tier maps give every score the same tier |
| Agreement.ClientMatchesServer | frontend/src/utils/passwordValidation.ts:29-83 | on every ASCII password, the client's errors, warnings, validity, score and tier equal the server's under its default policy |

## Left out

- Unicode. Go's validation tests classes with `unicode.IsUpper`, `unicode.IsLower` and `unicode.IsDigit`, which accept non-ASCII letters and digits. The model's classes are the ASCII ranges that the scoring regular expressions and the client use. On non-ASCII input the server's validation and its score can therefore disagree, and the model does not capture that.
- String length and lower-casing. Go's `len` counts UTF-8 bytes, JavaScript counts UTF-16 units, and both `ToLower` functions are Unicode-aware. The model uses one character per element and ASCII lower-casing, where all three agree.
- The regular-expression engine. Each `[...]` test is modelled as membership in its character set.
- Message texts. The `fmt.Sprintf` and template-literal wording is not modelled. Each violation carries the number or word its message shows.
- Scores. TypeScript `number` is modelled as `int`; every caller passes an integer score, so fractions and NaN are not modelled.
- Agreement.ClientMatchesServer: the equivalence is claimed only for ASCII passwords. On other input the Go class tests and byte length differ from the TypeScript ones, as the Unicode and string-length lines above say.
- Result allocation. The Go result is a pointer and the TypeScript one a fresh object literal. Both are modelled as values, so aliasing is not modelled.
- frontend/src/components/PasswordStrengthMeter.tsx is not part of this model. It is UI state and rendering, including its own display rule for an empty password.
- internals/user/controller/http/routes.go and the request DTOs under internals/user/controller/dto/ are not part of this model. They are wiring and struct declarations. Their length tags are enforced by an external validation library.
