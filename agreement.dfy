/** The two evaluators agree. The client always applies its built-in
    policy; that policy is the server's default, and on every password the
    client's one call returns what the server's validation, scoring and
    tier calls return together. */
module Agreement {
  import opened PasswordRules
  import ServerPolicy
  import ClientValidation

  /** Both sides ship the same default policy. */
  lemma DefaultPoliciesAgree()
    ensures ClientValidation.DefaultPasswordPolicy == ServerPolicy.DefaultPasswordPolicy()
  {
  }

  /** Both tier maps give every score the same tier. */
  lemma StrengthTextsAgree(score: int)
    ensures ClientValidation.GetPasswordStrengthText(score) == ServerPolicy.GetPasswordStrengthText(score)
  {
    TierUnique(ClientValidation.GetPasswordStrengthText(score), ServerPolicy.GetPasswordStrengthText(score), score);
  }

  /** Runs the client evaluator and the server's three calls on the same
      password under the server's default policy; the five fields agree. */
  method ClientMatchesServer(password: string)
    returns (client: ClientValidation.PasswordValidationResult,
             server: ServerPolicy.PasswordValidationResult,
             serverStrength: int, serverLevel: Tier)
    ensures client.errors == server.errors
    ensures client.warnings == server.warnings
    ensures client.isValid == server.isValid
    ensures client.strength == serverStrength
    ensures client.level == serverLevel
  {
    client := ClientValidation.ValidatePasswordClient(password);
    server := ServerPolicy.ValidatePassword(ServerPolicy.DefaultPasswordPolicy(), password);
    serverStrength := ServerPolicy.GetPasswordStrength(password);
    serverLevel := ServerPolicy.GetPasswordStrengthText(serverStrength);
    DefaultPoliciesAgree();
    StrengthTextsAgree(serverStrength);
  }
}
