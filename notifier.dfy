/**
 * The part of `send_email` (auto_hpc_account.py:214-328) that decides
 * whether a notification can go out at all: both the recipient and the
 * sending account must look like mail addresses. Building the message
 * and talking to the SMTP relay are not modelled; whether the relay
 * accepts the message is an input.
 */
module Notifier {
  import opened Text

  /** The negation of `not a or "@" not in a`. */
  predicate ValidAddress(a: string)
  {
    a != "" && Contains(a, "@")
  }

  /** `send_email`'s result: `False` on a bad address, otherwise what the relay did. */
  function SendEmail(recipient: string, smtpUser: string, relayAccepts: bool): (sent: bool)
    ensures !ValidAddress(recipient) ==> !sent
    ensures !ValidAddress(smtpUser) ==> !sent
    ensures ValidAddress(recipient) && ValidAddress(smtpUser) ==> sent == relayAccepts
  {
    if !ValidAddress(recipient) then false
    else if !ValidAddress(smtpUser) then false
    else relayAccepts
  }

  /** The one-character substring test is membership of '@'. */
  lemma AtSignTest(a: string)
    ensures Contains(a, "@") <==> '@' in a
  {
    if '@' in a {
      var i :| 0 <= i < |a| && a[i] == '@';
      assert OccursAt(a, "@", i);
    }
    if Contains(a, "@") {
      var i: nat :| i <= |a| && OccursAt(a, "@", i);
      assert a[i] == a[i..i + 1][0];
    }
  }

  /** An address is valid exactly when it holds an '@' (which also makes it non-empty). */
  lemma ValidAddressIffAtSign(a: string)
    ensures ValidAddress(a) <==> '@' in a
  {
    AtSignTest(a);
  }
}
