/** What a password verdict is, stated once for both implementations.

    The server (Go) and the client (TypeScript) evaluate a password with the
    same algorithm: length checks, character-class checks and forbidden words
    produce hard violations in a fixed order; two pattern detectors produce
    advisory warnings; an additive score is clamped to 0..100 and mapped to
    one of six tiers. This module holds the value types the two share, the
    pattern table, and reference definitions of the verdict, with the
    properties the verdict has. The implementations in ServerPolicy and
    ClientValidation are proved to compute exactly these definitions. */
module PasswordRules {
  import opened Text

  /** The policy record. Its integers are not constrained: a policy whose
      minimum exceeds its maximum is applied as given. */
  datatype PasswordPolicy = PasswordPolicy(
    minLength: int,
    maxLength: int,
    requireUppercase: bool,
    requireLowercase: bool,
    requireNumbers: bool,
    requireSpecial: bool,
    forbiddenWords: seq<string>)
  {
    /** Whether the policy demands at least one character of class `cls`. */
    predicate Demands(cls: CharClass) {
      match cls
      case Uppercase => requireUppercase
      case Lowercase => requireLowercase
      case Digit => requireNumbers
      case Special => requireSpecial
    }

    /** The sanity conditions a sensible policy meets: a positive minimum no
        larger than the maximum, and forbidden words that are non-empty and
        already lower-case. The evaluator does not check them. */
    predicate WellFormed() {
      && 0 < minLength <= maxLength
      && forall w :: w in forbiddenWords ==> w != [] && Lower(w) == w
    }
  }

  /** A hard violation. The messages the implementations format are
      represented by the parameter they carry. */
  datatype Violation =
    | TooShort(minLength: int)
    | TooLong(maxLength: int)
    | Missing(cls: CharClass)
    | ForbiddenWord(word: string)
  {
    /** The position of the producing check in the evaluation order:
        minimum length, maximum length, upper-case, lower-case, digit,
        special, forbidden words. */
    function Stage(): (r: nat)
      ensures r <= 6
      ensures r == 6 <==> ForbiddenWord?
    {
      match this
      case TooShort(_) => 0
      case TooLong(_) => 1
      case Missing(Uppercase) => 2
      case Missing(Lowercase) => 3
      case Missing(Digit) => 4
      case Missing(Special) => 5
      case ForbiddenWord(_) => 6
    }
  }

  /** An advisory warning; it never makes a password invalid. */
  datatype Warning = CommonPattern | RepeatedCharacters

  // ---------------------------------------------------------------------
  // Hard violations

  function LengthViolations(p: PasswordPolicy, n: int): seq<Violation> {
    (if n < p.minLength then [TooShort(p.minLength)] else [])
    + (if n > p.maxLength then [TooLong(p.maxLength)] else [])
  }

  function ClassCheck(p: PasswordPolicy, cls: CharClass, s: string): seq<Violation> {
    if p.Demands(cls) && !Present(cls, s) then [Missing(cls)] else []
  }

  function ClassViolations(p: PasswordPolicy, s: string): seq<Violation> {
    ClassCheck(p, Uppercase, s) + ClassCheck(p, Lowercase, s)
    + ClassCheck(p, Digit, s) + ClassCheck(p, Special, s)
  }

  /** One violation per entry of `words` whose lower-case form occurs in
      `lowered`, in list order. */
  function ForbiddenMatches(words: seq<string>, lowered: string): (r: seq<Violation>)
    ensures |r| <= |words|
    ensures forall v :: v in r ==>
              v.ForbiddenWord? && v.word in words && Contains(lowered, Lower(v.word))
  {
    if words == [] then []
    else
      (if Contains(lowered, Lower(words[0])) then [ForbiddenWord(words[0])] else [])
      + ForbiddenMatches(words[1..], lowered)
  }

  /** The violations of `s` under `p`, in check order. */
  function Violations(p: PasswordPolicy, s: string): (r: seq<Violation>)
    ensures |r| <= 6 + |p.forbiddenWords|
  {
    LengthViolations(p, |s|) + ClassViolations(p, s)
    + ForbiddenMatches(p.forbiddenWords, Lower(s))
  }

  // ---------------------------------------------------------------------
  // Pattern detection

  /** The 40 "common sequential patterns" both implementations list. */
  const SequentialPatterns: seq<string> := [
    "abc", "bcd", "cde", "def", "efg", "fgh", "ghi", "hij", "ijk", "jkl", "klm", "lmn",
    "mno", "nop", "opq", "pqr", "qrs", "rst", "stu", "tuv", "uvw", "vwx", "wxy", "xyz",
    "123", "234", "345", "456", "567", "678", "789", "890",
    "qwe", "wer", "ert", "rty", "tyu", "yui", "uio", "iop"
  ]

  const Alphabet: string := "abcdefghijklmnopqrstuvwxyz"
  const DigitRow: string := "1234567890"
  const TopLetterRow: string := "qwertyuiop"

  /** The overlapping three-character windows of `run`, left to right. */
  function Windows(run: string): (r: seq<string>)
    requires |run| >= 2
    ensures |r| == |run| - 2
    ensures forall i :: 0 <= i < |r| ==> r[i] == run[i..i + 3]
  {
    seq(|run| - 2, i requires 0 <= i < |run| - 2 => run[i..i + 3])
  }

  /** The lower-cased `s` has, at position `i`, a window listed in the table. */
  predicate PatternAt(s: string, i: int) {
    0 <= i <= |s| - 3 && Lower(s)[i..i + 3] in SequentialPatterns
  }

  /** Reference definition: some three-character window of the lower-cased
      password is a listed pattern. */
  predicate HasCommonPattern(s: string) {
    exists i :: 0 <= i <= |s| - 3 && PatternAt(s, i)
  }

  /** Three identical characters start at position `i` (case-sensitive). */
  predicate TripleAt(s: string, i: int) {
    0 <= i < |s| - 2 && s[i] == s[i + 1] && s[i] == s[i + 2]
  }

  /** Reference definition: three identical consecutive characters. */
  predicate HasTripleRun(s: string) {
    exists i :: 0 <= i < |s| - 2 && TripleAt(s, i)
  }

  /** The warnings of `s`, pattern before repetition. */
  function Warnings(s: string): (r: seq<Warning>)
    ensures |r| <= 2
    ensures CommonPattern in r <==> HasCommonPattern(s)
    ensures RepeatedCharacters in r <==> HasTripleRun(s)
  {
    (if HasCommonPattern(s) then [CommonPattern] else [])
    + (if HasTripleRun(s) then [RepeatedCharacters] else [])
  }

  // ---------------------------------------------------------------------
  // Strength score and tiers

  /** Points for length, added cumulatively at 8, 12 and 16 characters. */
  function LengthPoints(n: int): (r: int)
    ensures r == if n < 8 then 0 else if n < 12 then 20 else if n < 16 then 30 else 40
  {
    (if n >= 8 then 20 else 0) + (if n >= 12 then 10 else 0) + (if n >= 16 then 10 else 0)
  }

  /** Fifteen points per class present: a multiple of 15 up to 60, and 60
      exactly when all four classes are present. */
  function ClassPoints(s: string): (r: int)
    ensures 0 <= r <= 60 && r % 15 == 0
    ensures r == 60 <==> Present(Uppercase, s) && Present(Lowercase, s) && Present(Digit, s) && Present(Special, s)
  {
    (if Present(Uppercase, s) then 15 else 0) + (if Present(Lowercase, s) then 15 else 0)
    + (if Present(Digit, s) then 15 else 0) + (if Present(Special, s) then 15 else 0)
  }

  /** The score before the final clamp. */
  function RawStrength(s: string): (r: int)
    ensures -30 <= r <= 100
  {
    LengthPoints(|s|) + ClassPoints(s)
    - (if HasCommonPattern(s) then 20 else 0)
    - (if HasTripleRun(s) then 10 else 0)
  }

  function Clamp(x: int): (r: int)
    ensures 0 <= r <= 100
    ensures 0 <= x <= 100 ==> r == x
    ensures x < 0 ==> r == 0
    ensures x > 100 ==> r == 100
  {
    if x < 0 then 0 else if x > 100 then 100 else x
  }

  /** The strength score: the raw score clamped into 0..100. Because the raw
      score never exceeds 100, only the lower clamp ever takes effect. */
  function Strength(s: string): (r: int)
    ensures 0 <= r <= 100
    ensures r == if RawStrength(s) < 0 then 0 else RawStrength(s)
  {
    Clamp(RawStrength(s))
  }

  datatype Tier = VeryWeak | Weak | Fair | Good | Strong | VeryStrong {
    function Rank(): (r: nat)
      ensures r <= 5
    {
      match this
      case VeryWeak => 0
      case Weak => 1
      case Fair => 2
      case Good => 3
      case Strong => 4
      case VeryStrong => 5
    }

    /** The text both implementations return for the tier. */
    function Label(): string {
      match this
      case VeryWeak => "Very Weak"
      case Weak => "Weak"
      case Fair => "Fair"
      case Good => "Good"
      case Strong => "Strong"
      case VeryStrong => "Very Strong"
    }
  }

  /** The lower bounds of the tiers above VeryWeak. */
  const TierThresholds: seq<int> := [20, 40, 60, 80, 90]

  /** `t` is the tier of `score`: exactly the first `t.Rank()` thresholds are
      reached. */
  predicate IsTierOf(t: Tier, score: int) {
    forall k :: 0 <= k < |TierThresholds| ==> (TierThresholds[k] <= score <==> k < t.Rank())
  }

  // ---------------------------------------------------------------------
  // Properties of the violations

  /** `x` may stand before `y` in check order. */
  predicate Before(x: Violation, y: Violation) {
    x.Stage() < y.Stage() || (x.ForbiddenWord? && y.ForbiddenWord?)
  }

  /** Check order: the stages never go backwards, and only forbidden-word
      violations may share a stage. */
  predicate InCheckOrder(vs: seq<Violation>) {
    forall i, j :: 0 <= i < j < |vs| ==> Before(vs[i], vs[j])
  }

  lemma CheckOrderConcat(a: seq<Violation>, b: seq<Violation>)
    requires InCheckOrder(a) && InCheckOrder(b)
    requires forall x, y :: x in a && y in b ==> Before(x, y)
    ensures InCheckOrder(a + b)
  {
    forall i, j | 0 <= i < j < |a + b| ensures Before((a + b)[i], (a + b)[j]) {
      if j < |a| {
        assert (a + b)[i] == a[i] && (a + b)[j] == a[j];
      } else if i < |a| {
        assert (a + b)[i] in a && (a + b)[j] in b;
      } else {
        assert (a + b)[i] == b[i - |a|] && (a + b)[j] == b[j - |a|];
      }
    }
  }

  lemma ClassViolationsShape(p: PasswordPolicy, s: string)
    ensures forall v :: v in ClassViolations(p, s) ==>
              v.Missing? && p.Demands(v.cls) && !Present(v.cls, s)
    ensures forall cls :: p.Demands(cls) && !Present(cls, s) ==> Missing(cls) in ClassViolations(p, s)
    ensures InCheckOrder(ClassViolations(p, s))
  {
    var u, l, d, x := ClassCheck(p, Uppercase, s), ClassCheck(p, Lowercase, s),
                      ClassCheck(p, Digit, s), ClassCheck(p, Special, s);
    assert ClassViolations(p, s) == u + l + d + x;
    ClassCheckShape(p, Uppercase, s);
    ClassCheckShape(p, Lowercase, s);
    ClassCheckShape(p, Digit, s);
    ClassCheckShape(p, Special, s);
    CheckOrderConcat(u, l);
    CheckOrderConcat(u + l, d);
    CheckOrderConcat(u + l + d, x);
    forall v | v in ClassViolations(p, s) ensures v.Missing? && p.Demands(v.cls) && !Present(v.cls, s) {
      assert v in u || v in l || v in d || v in x;
    }
    forall cls | p.Demands(cls) && !Present(cls, s) ensures Missing(cls) in ClassViolations(p, s) {
      ClassCheckReported(p, cls, s);
    }
  }

  /** A single class check reports at most its own class, and only when the
      policy demands it and it is absent. */
  lemma ClassCheckShape(p: PasswordPolicy, cls: CharClass, s: string)
    ensures forall v :: v in ClassCheck(p, cls, s) ==> v == Missing(cls) && p.Demands(cls) && !Present(cls, s)
    ensures InCheckOrder(ClassCheck(p, cls, s))
  {
  }

  lemma ClassCheckReported(p: PasswordPolicy, cls: CharClass, s: string)
    requires p.Demands(cls) && !Present(cls, s)
    ensures Missing(cls) in ClassViolations(p, s)
  {
    var u, l, d, x := ClassCheck(p, Uppercase, s), ClassCheck(p, Lowercase, s),
                      ClassCheck(p, Digit, s), ClassCheck(p, Special, s);
    assert ClassViolations(p, s) == u + l + d + x;
    match cls
    case Uppercase => assert Missing(cls) in u;
    case Lowercase => assert Missing(cls) in l;
    case Digit => assert Missing(cls) in d;
    case Special => assert Missing(cls) in x;
  }

  lemma ViolationsInCheckOrder(p: PasswordPolicy, s: string)
    ensures InCheckOrder(Violations(p, s))
  {
    var len := LengthViolations(p, |s|);
    var cls := ClassViolations(p, s);
    var fw := ForbiddenMatches(p.forbiddenWords, Lower(s));
    ClassViolationsShape(p, s);
    assert forall v :: v in len ==> v.Stage() <= 1;
    assert InCheckOrder(len);
    assert InCheckOrder(fw);
    CheckOrderConcat(len, cls);
    CheckOrderConcat(len + cls, fw);
  }

  /** Every listed word that occurs in `lowered` is reported. */
  lemma {:induction false} ForbiddenMatchesComplete(words: seq<string>, lowered: string, w: string)
    requires w in words && Contains(lowered, Lower(w))
    ensures ForbiddenWord(w) in ForbiddenMatches(words, lowered)
  {
    if words[0] != w {
      ForbiddenMatchesComplete(words[1..], lowered, w);
    }
  }

  /** Forbidden-word violations keep list order: the matches of a
      concatenation are the matches of its parts, concatenated. */
  lemma {:induction false} ForbiddenMatchesAppend(a: seq<string>, b: seq<string>, lowered: string)
    ensures ForbiddenMatches(a + b, lowered) == ForbiddenMatches(a, lowered) + ForbiddenMatches(b, lowered)
  {
    if a == [] {
      assert a + b == b;
    } else {
      assert (a + b)[1..] == a[1..] + b;
      ForbiddenMatchesAppend(a[1..], b, lowered);
    }
  }

  /** No violation comes from a list none of whose words occurs. */
  lemma {:induction false} NoForbiddenMatches(words: seq<string>, lowered: string)
    requires forall w :: w in words ==> !Contains(lowered, Lower(w))
    ensures ForbiddenMatches(words, lowered) == []
  {
    if words != [] {
      assert words[0] in words;
      NoForbiddenMatches(words[1..], lowered);
    }
  }

  /** Appending the four class checks one by one to `prefix` appends the
      class violations. */
  lemma ClassChecksAppend(p: PasswordPolicy, s: string, prefix: seq<Violation>)
    ensures prefix + ClassCheck(p, Uppercase, s) + ClassCheck(p, Lowercase, s)
            + ClassCheck(p, Digit, s) + ClassCheck(p, Special, s)
            == prefix + ClassViolations(p, s)
  {
  }

  /** One more word of the list adds its match, if any, at the end. */
  lemma ForbiddenMatchesStep(words: seq<string>, k: nat, lowered: string)
    requires k < |words|
    ensures ForbiddenMatches(words[..k + 1], lowered)
            == ForbiddenMatches(words[..k], lowered)
               + (if Contains(lowered, Lower(words[k])) then [ForbiddenWord(words[k])] else [])
  {
    assert [words[k]][1..] == [];
    assert words[..k + 1] == words[..k] + [words[k]];
    ForbiddenMatchesAppend(words[..k], [words[k]], lowered);
  }

  /** A violation of the whole verdict comes from exactly one of its three
      parts. */
  lemma ViolationIn(p: PasswordPolicy, s: string, v: Violation)
    ensures v in Violations(p, s) <==>
              v in LengthViolations(p, |s|) || v in ClassViolations(p, s)
              || v in ForbiddenMatches(p.forbiddenWords, Lower(s))
  {
  }

  /** The length checks: each length violation is reported exactly when its
      bound is crossed, and carries that bound. */
  lemma LengthViolationsReported(p: PasswordPolicy, s: string)
    ensures TooShort(p.minLength) in Violations(p, s) <==> |s| < p.minLength
    ensures TooLong(p.maxLength) in Violations(p, s) <==> |s| > p.maxLength
    ensures forall m :: TooShort(m) in Violations(p, s) ==> m == p.minLength
    ensures forall m :: TooLong(m) in Violations(p, s) ==> m == p.maxLength
  {
    ClassViolationsShape(p, s);
    forall v: Violation | v.TooShort? || v.TooLong?
      ensures v in Violations(p, s) <==> v in LengthViolations(p, |s|)
    {
      ViolationIn(p, s, v);
    }
  }

  /** The class checks: a class violation is reported exactly when the
      policy demands the class and no character of it is present. */
  lemma ClassViolationsReported(p: PasswordPolicy, s: string)
    ensures forall cls :: Missing(cls) in Violations(p, s) <==> p.Demands(cls) && !Present(cls, s)
  {
    ClassViolationsShape(p, s);
    forall cls: CharClass
      ensures Missing(cls) in Violations(p, s) <==> Missing(cls) in ClassViolations(p, s)
    {
      ViolationIn(p, s, Missing(cls));
    }
  }

  /** The forbidden-word check: a word is reported exactly when it is listed
      and its lower-case form occurs in the lower-cased password. */
  lemma ForbiddenWordsReported(p: PasswordPolicy, s: string)
    ensures forall w :: ForbiddenWord(w) in Violations(p, s) <==>
              w in p.forbiddenWords && Contains(Lower(s), Lower(w))
  {
    ClassViolationsShape(p, s);
    forall w
      ensures ForbiddenWord(w) in Violations(p, s) <==> ForbiddenWord(w) in ForbiddenMatches(p.forbiddenWords, Lower(s))
    {
      ViolationIn(p, s, ForbiddenWord(w));
    }
    forall w | w in p.forbiddenWords && Contains(Lower(s), Lower(w))
      ensures ForbiddenWord(w) in ForbiddenMatches(p.forbiddenWords, Lower(s))
    {
      ForbiddenMatchesComplete(p.forbiddenWords, Lower(s), w);
    }
  }

  /** A password of exactly the maximum length has no maximum-length
      violation; one character more has exactly one. */
  lemma MaxLengthBoundary(p: PasswordPolicy, s: string)
    ensures |s| == p.maxLength ==> forall m :: TooLong(m) !in Violations(p, s)
    ensures |s| == p.maxLength + 1 ==>
              multiset(Violations(p, s))[TooLong(p.maxLength)] == 1
              && forall m :: TooLong(m) in Violations(p, s) ==> m == p.maxLength
  {
    LengthViolationsReported(p, s);
    ClassViolationsShape(p, s);
    var len := LengthViolations(p, |s|);
    var cls := ClassViolations(p, s);
    var fw := ForbiddenMatches(p.forbiddenWords, Lower(s));
    assert Violations(p, s) == len + cls + fw;
    assert TooLong(p.maxLength) !in cls && TooLong(p.maxLength) !in fw;
    assert multiset(Violations(p, s)) == multiset(len) + multiset(cls) + multiset(fw);
  }

  /** A password of exactly the minimum length has no minimum-length
      violation; one character fewer has exactly one. */
  lemma MinLengthBoundary(p: PasswordPolicy, s: string)
    ensures |s| == p.minLength ==> forall m :: TooShort(m) !in Violations(p, s)
    ensures |s| == p.minLength - 1 ==>
              multiset(Violations(p, s))[TooShort(p.minLength)] == 1
              && forall m :: TooShort(m) in Violations(p, s) ==> m == p.minLength
  {
    LengthViolationsReported(p, s);
    ClassViolationsShape(p, s);
    var len := LengthViolations(p, |s|);
    var cls := ClassViolations(p, s);
    var fw := ForbiddenMatches(p.forbiddenWords, Lower(s));
    assert Violations(p, s) == len + cls + fw;
    assert TooShort(p.minLength) !in cls && TooShort(p.minLength) !in fw;
    assert multiset(Violations(p, s)) == multiset(len) + multiset(cls) + multiset(fw);
  }

  /** Under a policy whose minimum exceeds its maximum, a password between
      the two is reported both too short and too long, in that order. */
  lemma MisconfiguredPolicyReportsBoth(p: PasswordPolicy, s: string)
    requires p.maxLength < |s| < p.minLength
    ensures |Violations(p, s)| >= 2
    ensures Violations(p, s)[0] == TooShort(p.minLength)
    ensures Violations(p, s)[1] == TooLong(p.maxLength)
  {
  }

  lemma PresentPersists(cls: CharClass, s: string, c: char)
    ensures Present(cls, s) ==> Present(cls, s + [c])
    ensures cls.Matches(c) ==> Present(cls, s + [c])
  {
    if Present(cls, s) {
      var i :| 0 <= i < |s| && cls.Matches(s[i]);
      assert (s + [c])[i] == s[i];
    }
    assert (s + [c])[|s|] == c;
  }

  /** Appending a character never adds a class violation. */
  lemma AppendingNeverAddsClassViolations(p: PasswordPolicy, s: string, c: char)
    ensures |ClassViolations(p, s + [c])| <= |ClassViolations(p, s)|
  {
    PresentPersists(Uppercase, s, c);
    PresentPersists(Lowercase, s, c);
    PresentPersists(Digit, s, c);
    PresentPersists(Special, s, c);
  }

  /** Appending a character of a demanded class that the password lacks
      removes that class's violation, so the count strictly drops. */
  lemma AppendingMissingClassRemovesViolation(p: PasswordPolicy, s: string, c: char, cls: CharClass)
    requires p.Demands(cls) && !Present(cls, s) && cls.Matches(c)
    ensures |ClassViolations(p, s + [c])| < |ClassViolations(p, s)|
    ensures Missing(cls) !in ClassViolations(p, s + [c])
  {
    PresentPersists(Uppercase, s, c);
    PresentPersists(Lowercase, s, c);
    PresentPersists(Digit, s, c);
    PresentPersists(Special, s, c);
    ClassViolationsShape(p, s + [c]);
  }

  // ---------------------------------------------------------------------
  // Properties of the pattern table and the detectors

  /** Every pattern has three characters; each segment of the table spells,
      character by character, consecutive windows of its run. */
  lemma PatternCharacters()
    ensures forall k :: 0 <= k < |SequentialPatterns| ==> |SequentialPatterns[k]| == 3
    ensures forall k, j :: 0 <= k < 24 && 0 <= j < 3 ==> SequentialPatterns[k][j] == Alphabet[k + j]
    ensures forall k, j :: 24 <= k < 32 && 0 <= j < 3 ==> SequentialPatterns[k][j] == DigitRow[k - 24 + j]
    ensures forall k, j :: 32 <= k < 40 && 0 <= j < 3 ==> SequentialPatterns[k][j] == TopLetterRow[k - 32 + j]
  {
    AlphabetSegment();
    DigitSegment();
    KeyboardSegment();
  }

  lemma AlphabetSegment()
    ensures forall k, j :: 0 <= k < 24 && 0 <= j < 3 ==> |SequentialPatterns[k]| == 3 && SequentialPatterns[k][j] == Alphabet[k + j]
  {
    AlphabetFirstHalf();
    AlphabetSecondHalf();
  }

  lemma AlphabetFirstHalf()
    ensures forall k, j :: 0 <= k < 12 && 0 <= j < 3 ==> |SequentialPatterns[k]| == 3 && SequentialPatterns[k][j] == Alphabet[k + j]
  {
  }

  lemma AlphabetSecondHalf()
    ensures forall k, j :: 12 <= k < 24 && 0 <= j < 3 ==> |SequentialPatterns[k]| == 3 && SequentialPatterns[k][j] == Alphabet[k + j]
  {
  }

  lemma DigitSegment()
    ensures forall k, j :: 24 <= k < 32 && 0 <= j < 3 ==> |SequentialPatterns[k]| == 3 && SequentialPatterns[k][j] == DigitRow[k - 24 + j]
  {
  }

  lemma KeyboardSegment()
    ensures forall k, j :: 32 <= k < 40 && 0 <= j < 3 ==> |SequentialPatterns[k]| == 3 && SequentialPatterns[k][j] == TopLetterRow[k - 32 + j]
  {
  }

  /** The table is the overlapping windows of the alphabet (24), of the
      digit row 1..0 (8) and of the top letter row of a QWERTY keyboard (8). */
  lemma SequentialPatternsAreRuns()
    ensures SequentialPatterns == Windows(Alphabet) + Windows(DigitRow) + Windows(TopLetterRow)
    ensures |Windows(Alphabet)| == 24 && |Windows(DigitRow)| == 8 && |Windows(TopLetterRow)| == 8
  {
    PatternCharacters();
    var w := Windows(Alphabet) + Windows(DigitRow) + Windows(TopLetterRow);
    forall k | 0 <= k < 40 ensures SequentialPatterns[k] == w[k] {
      if k < 24 {
        assert w[k] == Alphabet[k..k + 3];
        assert forall j :: 0 <= j < 3 ==> SequentialPatterns[k][j] == Alphabet[k..k + 3][j];
      } else if k < 32 {
        assert w[k] == DigitRow[k - 24..k - 21];
        assert forall j :: 0 <= j < 3 ==> SequentialPatterns[k][j] == DigitRow[k - 24..k - 21][j];
      } else {
        assert w[k] == TopLetterRow[k - 32..k - 29];
        assert forall j :: 0 <= j < 3 ==> SequentialPatterns[k][j] == TopLetterRow[k - 32..k - 29][j];
      }
    }
  }

  /** The window definition agrees with "some listed pattern is a substring
      of the lower-cased password", the form both implementations test. */
  lemma CommonPatternByContainment(s: string)
    ensures HasCommonPattern(s) <==>
              exists k :: 0 <= k < |SequentialPatterns| && Contains(Lower(s), SequentialPatterns[k])
  {
    PatternCharacters();
    if HasCommonPattern(s) {
      var i :| 0 <= i <= |s| - 3 && PatternAt(s, i);
      var k :| 0 <= k < |SequentialPatterns| && SequentialPatterns[k] == Lower(s)[i..i + 3];
      assert OccursAt(Lower(s), SequentialPatterns[k], i);
    }
    if exists k :: 0 <= k < |SequentialPatterns| && Contains(Lower(s), SequentialPatterns[k]) {
      var k :| 0 <= k < |SequentialPatterns| && Contains(Lower(s), SequentialPatterns[k]);
      var i :| 0 <= i <= |Lower(s)| - |SequentialPatterns[k]| && OccursAt(Lower(s), SequentialPatterns[k], i);
      assert PatternAt(s, i);
    }
  }

  /** Strings of fewer than three characters never repeat; the comparison
      is case-sensitive. */
  lemma TripleRunFacts(s: string)
    ensures |s| < 3 ==> !HasTripleRun(s)
    ensures HasTripleRun("aaa") && !HasTripleRun("Aaa")
  {
    assert TripleAt("aaa", 0);
  }

  // ---------------------------------------------------------------------
  // Properties of the tiers

  /** The tier rank `IsTierOf` determines, by score range. */
  lemma TierRank(t: Tier, score: int)
    requires IsTierOf(t, score)
    ensures t.Rank() == if score < 20 then 0 else if score < 40 then 1 else if score < 60 then 2
                        else if score < 80 then 3 else if score < 90 then 4 else 5
  {
    assert TierThresholds[0] <= score <==> 0 < t.Rank();
    assert TierThresholds[1] <= score <==> 1 < t.Rank();
    assert TierThresholds[2] <= score <==> 2 < t.Rank();
    assert TierThresholds[3] <= score <==> 3 < t.Rank();
    assert TierThresholds[4] <= score <==> 4 < t.Rank();
  }

  /** A score has at most one tier. */
  lemma TierUnique(t1: Tier, t2: Tier, score: int)
    requires IsTierOf(t1, score) && IsTierOf(t2, score)
    ensures t1 == t2
  {
    TierRank(t1, score);
    TierRank(t2, score);
  }

  /** A higher score never has a lower tier. */
  lemma TierMonotone(ta: Tier, a: int, tb: Tier, b: int)
    requires IsTierOf(ta, a) && IsTierOf(tb, b) && a <= b
    ensures ta.Rank() <= tb.Rank()
  {
    TierRank(ta, a);
    TierRank(tb, b);
  }

  /** The six labels are distinct, so a label identifies its tier. */
  lemma LabelsIdentifyTiers(t1: Tier, t2: Tier)
    ensures t1.Label() == t2.Label() <==> t1 == t2
  {
  }

  // ---------------------------------------------------------------------
  // How acceptance and strength relate

  /** A password accepted by a policy that demands all four classes and at
      least eight characters scores at least 50: it is never rated below
      Fair. */
  lemma AcceptedPasswordIsAtLeastFair(p: PasswordPolicy, s: string, t: Tier)
    requires p.minLength >= 8
    requires p.requireUppercase && p.requireLowercase && p.requireNumbers && p.requireSpecial
    requires Violations(p, s) == []
    requires IsTierOf(t, Strength(s))
    ensures Strength(s) >= 50
    ensures t.Rank() >= Fair.Rank()
  {
    var len := LengthViolations(p, |s|);
    var cls := ClassViolations(p, s);
    var fw := ForbiddenMatches(p.forbiddenWords, Lower(s));
    assert len + cls + fw == [];
    assert |len| == 0 && |cls| == 0;
    ClassViolationsShape(p, s);
    TierRank(t, Strength(s));
    assert |s| >= 8;
    assert ClassPoints(s) == 60;
  }
}
