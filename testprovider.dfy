/** The providers a test can run against, as the `switch` in
    `BaseTest.setAndInsertProvider` lists them. The enum's own source is not
    part of this model; each provider's registered name is taken to be its
    constant's identifier. */
module TestProviders {
  import opened JavaLang

  datatype TestProvider =
    | BC
    | SUN
    | SunJCE
    | SunRsaSign
    | SunEC
    | OpenJCEPlus
    | OpenJCEPlusFIPS

  /** `TestProvider.getProviderName()`: a non-empty name made of ASCII letters
      only, so it holds no comma and no white space. */
  function ProviderName(p: TestProvider): (name: string)
    ensures name != []
    ensures forall i :: 0 <= i < |name| ==> 'a' <= name[i] <= 'z' || 'A' <= name[i] <= 'Z'
  {
    match p
    case BC => "BC"
    case SUN => "SUN"
    case SunJCE => "SunJCE"
    case SunRsaSign => "SunRsaSign"
    case SunEC => "SunEC"
    case OpenJCEPlus => "OpenJCEPlus"
    case OpenJCEPlusFIPS => "OpenJCEPlusFIPS"
  }

  /** No tag can name both OpenJCEPlus providers, even ignoring case: their names
      differ in length. */
  lemma JCEPlusNamesDistinct(tag: string)
    ensures !(EqualsIgnoreCase(ProviderName(OpenJCEPlus), tag)
              && EqualsIgnoreCase(ProviderName(OpenJCEPlusFIPS), tag))
  {
  }

  /** A tag names at most one provider, even ignoring case: the seven names
      differ in length. */
  lemma ProviderNamesDistinct(p: TestProvider, q: TestProvider, tag: string)
    requires EqualsIgnoreCase(ProviderName(p), tag) && EqualsIgnoreCase(ProviderName(q), tag)
    ensures p == q
  {
    assert |ProviderName(p)| == |tag| == |ProviderName(q)|;
  }
}
