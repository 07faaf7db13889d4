/**
 * The token kinds the lemma filter tags its output with, and the read-only
 * table of their string signatures.
 */
module TokenTypes {
  import opened Options

  /** The five kinds, in the order of their declared enum values 0..4. */
  datatype TokenType = Hebrew | NonHebrew | Numeric | Construct | Acronym

  /** The enum's integer value, used to index the signature table. */
  function Ordinal(t: TokenType): (n: nat)
    ensures n < |Signatures| - 1
  {
    match t
    case Hebrew => 0
    case NonHebrew => 1
    case Numeric => 2
    case Construct => 3
    case Acronym => 4
  }

  /** The signature table; its sixth slot is null and no enum value reaches it. */
  const Signatures: seq<Option<string>> :=
    [Some("<HEBREW>"), Some("<NON_HEBREW>"), Some("<NUM>"), Some("<CONSTRUCT>"), Some("<ACRONYM>"), None]

  /** Looks a kind's signature up in the table; the lookup never hits the null slot. */
  function TokenTypeSignature(t: TokenType): (sig: string)
    ensures Signatures[Ordinal(t)] == Some(sig)
    ensures 2 < |sig| && sig[0] == '<' && sig[|sig| - 1] == '>'
  {
    Signatures[Ordinal(t)].value
  }

  /** Distinct kinds have distinct signatures, so a signature identifies its kind. */
  lemma SignatureInjective(t: TokenType, u: TokenType)
    ensures TokenTypeSignature(t) == TokenTypeSignature(u) ==> t == u
  {
  }
}
