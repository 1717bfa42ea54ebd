/** The mock anti-spam adapter
    (src/infrastructure/external-services/mock-anti-spam.adapter.ts): a fixed
    rule that blocks an address containing a blocked pattern, or whose text
    between the first `@` and the next `@` (or the end) is a blocked domain.
    The lists are constants: nothing ever changes them. */
module AntiSpam {
  import opened Wrappers
  import opened JsString

  const BlockedDomains: seq<string> := ["spam.com", "fake.com", "bot.net"]
  const BlockedPatterns: seq<string> := ["blocked@", "spam@"]

  /** The text after the first `@`, up to the next `@`, or nothing when the
      address has no `@` (`email.split('@')[1]`). */
  function DomainField(email: string): (r: Option<string>)
    ensures r.Some? <==> '@' in email
  {
    SplitPieces(email, '@');
    var parts := Split(email, '@');
    if |parts| > 1 then Some(parts[1]) else None
  }

  /** The rule, as a specification: some pattern occurs in the address, or
      its domain field is present, non-empty and one of the blocked domains. */
  predicate Blocked(email: string) {
    (exists k | 0 <= k < |BlockedPatterns| :: Includes(email, BlockedPatterns[k]))
    || (DomainField(email).Some? && DomainField(email).value != "" && DomainField(email).value in BlockedDomains)
  }

  /** `isBlocked`: the patterns are tried in order and the first match
      answers `true`; then the domain field is looked up. */
  method IsBlocked(email: string) returns (blocked: bool)
    ensures blocked == Blocked(email)
  {
    for i := 0 to |BlockedPatterns|
      invariant forall k | 0 <= k < i :: !Includes(email, BlockedPatterns[k])
    {
      if Includes(email, BlockedPatterns[i]) {
        return true;
      }
    }
    var domain := DomainField(email);
    if domain.Some? && domain.value != "" && domain.value in BlockedDomains {
      return true;
    }
    return false;
  }

  // ---------------------------------------------------------------------
  // Properties

  /** A pattern that contains a character the address lacks does not occur. */
  lemma MissingCharExcludes(s: string, p: string, k: int)
    requires 0 <= k < |p| && p[k] !in s
    ensures !Includes(s, p)
  {
    if Includes(s, p) {
      IncludesChar(s, p, k);
    }
  }

  /** An address without `@` is never blocked: both patterns end in `@` and
      there is no domain field. */
  lemma NoAtNeverBlocked(email: string)
    requires '@' !in email
    ensures !Blocked(email)
  {
    forall k | 0 <= k < |BlockedPatterns|
      ensures !Includes(email, BlockedPatterns[k])
    {
      MissingCharExcludes(email, BlockedPatterns[k], |BlockedPatterns[k]| - 1);
    }
  }

  /** A blocked pattern anywhere in the address blocks it, whatever the
      domain. */
  lemma PatternAnywhereBlocks(before: string, k: int, after: string)
    requires 0 <= k < |BlockedPatterns|
    ensures Blocked(before + BlockedPatterns[k] + after)
  {
    var s := before + BlockedPatterns[k] + after;
    var p := BlockedPatterns[k];
    assert s[|before|..|before| + |p|] == p;
    assert OccursAt(s, p, |before|);
    IncludesIffOccurs(s, p);
  }

  /** `local@domain` with a blocked domain is blocked. */
  lemma BlockedDomainBlocks(local: string, domain: string)
    requires '@' !in local && domain in BlockedDomains
    ensures Blocked(local + ['@'] + domain)
  {
    assert '@' !in domain;
    SplitAround(local, domain, '@');
  }

  predicate EndsWith(s: string, x: string) {
    |x| <= |s| && s[|s| - |x|..] == x
  }

  /** In an address with a single `@`, a pattern `X@` (no other `@` in it)
      occurs exactly when the local part ends with `X`. */
  lemma PatternAtTheAt(local: string, domain: string, p: string)
    requires '@' !in local && '@' !in domain
    requires |p| > 0 && p[|p| - 1] == '@' && '@' !in p[..|p| - 1]
    ensures Includes(local + ['@'] + domain, p) <==> EndsWith(local, p[..|p| - 1])
  {
    var s := local + ['@'] + domain;
    IncludesIffOccurs(s, p);
    if Includes(s, p) {
      var i :| OccursAt(s, p, i);
      OccurrenceEndsAtTheAt(local, domain, p, i);
    }
    if EndsWith(local, p[..|p| - 1]) {
      SuffixGivesOccurrence(local, domain, p);
    }
  }

  lemma OccurrenceEndsAtTheAt(local: string, domain: string, p: string, i: int)
    requires '@' !in local && '@' !in domain
    requires |p| > 0 && p[|p| - 1] == '@'
    requires OccursAt(local + ['@'] + domain, p, i)
    ensures EndsWith(local, p[..|p| - 1])
  {
    var s := local + ['@'] + domain;
    var x := p[..|p| - 1];
    var j := i + |p| - 1;
    assert s[j] == s[i..i + |p|][|p| - 1] == '@';
    assert j == |local|;
    forall t | 0 <= t < |x|
      ensures local[|local| - |x|..][t] == x[t]
    {
      assert s[i + t] == s[i..i + |p|][t];
    }
  }

  lemma SuffixGivesOccurrence(local: string, domain: string, p: string)
    requires |p| > 0 && p[|p| - 1] == '@'
    requires EndsWith(local, p[..|p| - 1])
    ensures OccursAt(local + ['@'] + domain, p, |local| - |p| + 1)
  {
    var s := local + ['@'] + domain;
    var x := p[..|p| - 1];
    var i := |local| - |x|;
    forall t | 0 <= t < |p|
      ensures s[i..i + |p|][t] == p[t]
    {
      if t < |x| {
        assert s[i + t] == local[i + t] == local[|local| - |x|..][t];
      }
    }
  }

  /** The rule for an address `local@domain` with a single `@`: it is
      blocked exactly when the local part ends with `blocked` or `spam`, or
      the domain is one of the blocked domains, compared exactly. */
  lemma SingleAtRule(local: string, domain: string)
    requires '@' !in local && '@' !in domain
    ensures Blocked(local + ['@'] + domain)
      <==> EndsWith(local, "blocked") || EndsWith(local, "spam") || domain in BlockedDomains
  {
    assert BlockedPatterns[0] == "blocked@" && "blocked@"[..7] == "blocked";
    assert BlockedPatterns[1] == "spam@" && "spam@"[..4] == "spam";
    PatternAtTheAt(local, domain, "blocked@");
    PatternAtTheAt(local, domain, "spam@");
    SplitAround(local, domain, '@');
  }

  // ---------------------------------------------------------------------
  // Examples

  lemma BlockedPatternExample()
    ensures Blocked("blocked@foo.com")
  {
    PatternAnywhereBlocks("", 0, "foo.com");
    assert "" + "blocked@" + "foo.com" == "blocked@foo.com";
  }

  /** The pattern `spam@` also matches inside a longer local part. */
  lemma SpamSuffixExample()
    ensures Blocked("antispam@x.com")
  {
    PatternAnywhereBlocks("anti", 1, "x.com");
    assert "anti" + "spam@" + "x.com" == "antispam@x.com";
  }

  lemma BlockedDomainExample()
    ensures Blocked("x@spam.com")
  {
    BlockedDomainBlocks("x", "spam.com");
    assert "x" + ['@'] + "spam.com" == "x@spam.com";
  }

  lemma AllowedExample(s: string)
    requires s == "ok@good.com"
    ensures !Blocked(s)
  {
    assert "ok" + ['@'] + "good.com" == s;
    SingleAtRule("ok", "good.com");
  }

  /** Domains are compared exactly: case matters. */
  lemma UpperCaseDomainExample(s: string)
    requires s == "a@spam.COM"
    ensures !Blocked(s)
  {
    assert "a" + ['@'] + "spam.COM" == s;
    SingleAtRule("a", "spam.COM");
  }

  /** Domains are compared exactly: a sub-domain of a blocked domain passes. */
  lemma SubDomainExample(s: string)
    requires s == "a@mail.spam.com"
    ensures !Blocked(s)
  {
    assert "a" + ['@'] + "mail.spam.com" == s;
    SingleAtRule("a", "mail.spam.com");
  }
}
