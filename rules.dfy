/** The verification-rules manager the client hands registration results to. */
module Rules {

  /** The rule set carried by a registration response; its structure is not
      looked at by the client, so it is kept as an opaque document. */
  datatype VerificationRules = VerificationRules(document: string)

  /** Go's zero value of the rules struct: what decoding leaves in the field
      when the response does not carry it. */
  const ZeroRules := VerificationRules("")

  /** The external rules manager. Only its `UpdateCompleteRules` entry point is
      used by the client; the model records each call in a ghost log. */
  class VerificationRulesManager {
    ghost var updates: seq<VerificationRules>

    constructor ()
      ensures updates == []
    {
      updates := [];
    }

    method UpdateCompleteRules(rules: VerificationRules)
      modifies this
      ensures updates == old(updates) + [rules]
    {
      updates := updates + [rules];
    }
  }
}
