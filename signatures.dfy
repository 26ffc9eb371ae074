/** `clean_signatures` (email_selector_ui/clean_emails.py:355-372): the first
    Gabriel Kreiman signature block stays, every later one becomes a one-line
    stand-in. */
module Signatures {
  import opened Patterns

  const SignatureStandIn: string := "\n-- Gabriel Kreiman\n"

  function CleanSignatures(text: string): string
  {
    KeepFirstMatch(KreimanSignature, text, SignatureStandIn)
  }

  /** The stage as the source runs it, with its back-to-front loop. */
  method RunSignatures(text: string) returns (r: string)
    ensures r == CleanSignatures(text)
  {
    r := KeepFirstOccurrence(KreimanSignature, text, SignatureStandIn);
  }
}
