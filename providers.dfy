/**
 * The fixed allow-list of popular public mail providers and the
 * case-insensitive membership test `isPublicDomain`.
 */
module Providers {
  import opened Text

  /** The allow-list, in the order the source lists it; it is never changed. */
  const PublicDomains: seq<string> := ["gmail.com", "yahoo.com", "outlook.com", "hotmail.com"]

  /** The characters that spell the lower-case character `c`: `c` itself, its ASCII upper case, and U+212A for `k`. */
  function CaseVariants(c: char): set<char> {
    {c}
    + (if 'a' <= c <= 'z' then {(c as int - 32) as char} else {})
    + (if c == 'k' then {KELVIN_SIGN} else {})
  }

  /** `d` spells `e` letter for letter, in any mix of cases. */
  predicate MatchesIgnoringCase(d: string, e: string) {
    |d| == |e| && forall i :: 0 <= i < |d| ==> d[i] in CaseVariants(e[i])
  }

  /** A character lower-cases to a lower-case `c` exactly when it is one of `c`'s spellings. */
  lemma LowerCharSpellings(x: char, c: char)
    requires LowerChar(c) == c
    ensures LowerChar(x) == c <==> x in CaseVariants(c)
  {
  }

  /** For a lower-case target, lower-casing to it is the same as matching it ignoring case. */
  lemma ToLowerMatches(d: string, e: string)
    requires ToLower(e) == e
    ensures ToLower(d) == e <==> MatchesIgnoringCase(d, e)
  {
    forall i | 0 <= i < |e|
      ensures LowerChar(e[i]) == e[i]
    {
      assert ToLower(e)[i] == LowerChar(e[i]);
    }
    if |d| == |e| {
      forall i | 0 <= i < |d|
        ensures LowerChar(d[i]) == e[i] <==> d[i] in CaseVariants(e[i])
      {
        LowerCharSpellings(d[i], e[i]);
      }
      if MatchesIgnoringCase(d, e) {
        assert forall i :: 0 <= i < |d| ==> ToLower(d)[i] == e[i];
      }
    }
  }

  /** Every entry of the allow-list is already lower case. */
  lemma PublicDomainsAreLowerCase()
    ensures forall e :: e in PublicDomains ==> ToLower(e) == e
  {
    forall e | e in PublicDomains
      ensures ToLower(e) == e
    {
      assert forall i :: 0 <= i < |e| ==> LowerChar(e[i]) == e[i];
      assert forall i :: 0 <= i < |e| ==> ToLower(e)[i] == e[i];
    }
  }

  /** The lower-cased domain is in the list exactly when the domain spells an entry in some mix of cases. */
  lemma LowerCasedInList(domain: string)
    ensures ToLower(domain) in PublicDomains <==> exists e :: e in PublicDomains && MatchesIgnoringCase(domain, e)
  {
    PublicDomainsAreLowerCase();
    forall e | e in PublicDomains
      ensures ToLower(domain) == e <==> MatchesIgnoringCase(domain, e)
    {
      ToLowerMatches(domain, e);
    }
  }

  /**
   * `isPublicDomain(domain)`: the lower-cased domain is one of the list's
   * entries, exactly. Membership is case-insensitive: a domain passes when it
   * spells one of the four providers in some mix of cases, and only then.
   */
  predicate IsPublicDomain(domain: string): (public: bool)
    ensures public <==> exists e :: e in PublicDomains && MatchesIgnoringCase(domain, e)
  {
    LowerCasedInList(domain);
    ToLower(domain) in PublicDomains
  }

  /** Lower-casing a domain first does not change the verdict. */
  lemma IsPublicDomainUnderLowerCase(domain: string)
    ensures IsPublicDomain(ToLower(domain)) <==> IsPublicDomain(domain)
  {
    ToLowerIdempotent(domain);
  }

  /** Only a domain of nine or eleven characters can pass. */
  lemma PublicDomainLengths(domain: string)
    requires IsPublicDomain(domain)
    ensures |domain| == 9 || |domain| == 11
  {
    assert |ToLower(domain)| == |domain|;
    assert forall e :: e in PublicDomains ==> |e| == 9 || |e| == 11;
  }

  /** Worked example: an upper or mixed case spelling of a provider passes. */
  lemma MixedCaseProviderPasses()
    ensures IsPublicDomain("GMail.COM")
  {
    var r := ToLower("GMail.COM");
    assert r[0] == 'g' && r[1] == 'm' && r[2] == 'a' && r[3] == 'i' && r[4] == 'l';
    assert r[5] == '.' && r[6] == 'c' && r[7] == 'o' && r[8] == 'm';
    assert r == "gmail.com";
  }

  /** Worked example: sub-domains and shortened look-alikes of a provider do not pass: the test is whole-string equality. */
  lemma NearMissesRejected()
    ensures !IsPublicDomain("mail.gmail.com") && !IsPublicDomain("gmail.co") && !IsPublicDomain("")
  {
    if IsPublicDomain("mail.gmail.com") { PublicDomainLengths("mail.gmail.com"); }
    if IsPublicDomain("gmail.co") { PublicDomainLengths("gmail.co"); }
    if IsPublicDomain("") { PublicDomainLengths(""); }
  }
}
