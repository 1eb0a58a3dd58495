/**
 * `generate_confirm_code`: the SHA-256 hex digest of the server secret
 * followed by the text of the order's creation time and the text of its
 * e-mail address.
 */
module Utils {
  import opened Wrappers
  import opened Models

  predicate IsLowerHex(c: char)
  {
    '0' <= c <= '9' || 'a' <= c <= 'f'
  }

  /** What `hexdigest()` of a SHA-256 returns: 64 lowercase hexadecimal characters. */
  predicate IsHexDigest(s: string)
  {
    |s| == 64 && forall k :: 0 <= k < |s| ==> IsLowerHex(s[k])
  }

  type Digest = s: string | IsHexDigest(s)
    witness seq(64, k => '0')

  /**
   * What the code depends on besides the order: the `SECRET_KEY` setting,
   * SHA-256 over the UTF-8 encoding of a text (its internals are not
   * modelled), and `str()` of a `DateTimeField` value.
   */
  datatype CodeEnv = CodeEnv(secretKey: string, sha256Hex: string -> Digest, dateText: Time -> string)

  /** `str(order.email)`: a NULL e-mail formats as "None". */
  function EmailText(email: Option<string>): string
  {
    match email
    case None => "None"
    case Some(e) => e
  }

  /** The hashed text: the three parts, in this order, with nothing between them. */
  function ConfirmKey(secret: string, createdText: string, email: Option<string>): (k: string)
    ensures |k| == |secret| + |createdText| + |EmailText(email)|
    ensures k[..|secret|] == secret
    ensures k[|secret|..|secret| + |createdText|] == createdText
    ensures k[|secret| + |createdText|..] == EmailText(email)
  {
    secret + createdText + EmailText(email)
  }

  function GenerateConfirmCode(env: CodeEnv, o: Order): (code: Digest)
    ensures IsHexDigest(code)
  {
    env.sha256Hex(ConfirmKey(env.secretKey, env.dateText(o.createdDate), o.email))
  }

  /** Only the creation time and the e-mail of an order enter its code; its key, contacts, flags and pizza do not. */
  lemma CodeDependsOnDateAndEmail(env: CodeEnv, o1: Order, o2: Order)
    requires o1.createdDate == o2.createdDate && o1.email == o2.email
    ensures GenerateConfirmCode(env, o1) == GenerateConfirmCode(env, o2)
  {
  }

  /** With the secret and the time text fixed, different e-mail texts give different hashed texts. */
  lemma KeySeparatesEmails(secret: string, createdText: string, e1: Option<string>, e2: Option<string>)
    requires EmailText(e1) != EmailText(e2)
    ensures ConfirmKey(secret, createdText, e1) != ConfirmKey(secret, createdText, e2)
  {
    var n := |secret| + |createdText|;
    assert ConfirmKey(secret, createdText, e1)[n..] == EmailText(e1);
    assert ConfirmKey(secret, createdText, e2)[n..] == EmailText(e2);
  }

  /** Two stored addresses have the same text only when they are equal; a NULL address reads as "None". */
  lemma EmailTextCollisions(e1: Option<string>, e2: Option<string>)
    ensures EmailText(e1) == EmailText(e2) <==>
      e1 == e2 || (e1 == None && e2 == Some("None")) || (e1 == Some("None") && e2 == None)
  {
  }
}
