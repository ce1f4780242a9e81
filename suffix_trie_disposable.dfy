/**
 * SuffixTrieDisposable: the checker that loads a set of domains into a DomainSuffixTrie and then
 * answers whether an email or a domain is disposable, counting a domain as disposable when it or
 * one of its parent domains was loaded. The loader is represented by the set it yields.
 */
module TrieDisposable {
  import opened Wrappers
  import opened JavaString
  import opened Checker
  import opened SuffixTrie

  // ---------------------------------------------------------------- what construction loads

  /** What `add` does with the normalised form of a loaded entry. */
  function EntrySplit(entry: string): Result<seq<string>> {
    ValidateAndSplitDomain(Some(Normalize(entry)))
  }

  /** Some kept entry (not null, not blank) is one that `add` rejects, which aborts construction. */
  ghost predicate Rejected(domainSet: set<Option<string>>) {
    exists o :: o in domainSet && !IsStringBlank(o) && EntrySplit(o.value).Failure?
  }

  /** The domains, as label sequences, that construction registers from `domainSet`. */
  ghost function LoadedLabels(domainSet: set<Option<string>>): set<seq<string>> {
    set o | o in domainSet && !IsStringBlank(o) && EntrySplit(o.value).Success? :: EntrySplit(o.value).value
  }

  /** A null or blank entry is skipped: it neither registers anything nor aborts construction. */
  lemma EntrySkipped(done: set<Option<string>>, o: Option<string>)
    requires IsStringBlank(o)
    ensures LoadedLabels(done + {o}) == LoadedLabels(done)
    ensures Rejected(done + {o}) == Rejected(done)
  {
    assert forall p :: p in done + {o} && !IsStringBlank(p) ==> p in done;
  }

  /** An entry `add` accepts registers its labels. */
  lemma EntryAdded(done: set<Option<string>>, o: Option<string>)
    requires !IsStringBlank(o) && EntrySplit(o.value).Success?
    ensures LoadedLabels(done + {o}) == LoadedLabels(done) + {EntrySplit(o.value).value}
    ensures Rejected(done + {o}) == Rejected(done)
  {
    assert forall p :: p in done + {o} && p != o ==> p in done;
  }

  /** Construction fails exactly because of an entry that is nothing but dots once trimmed, such as "..". */
  lemma RejectedMeansAllDots(domainSet: set<Option<string>>)
    ensures Rejected(domainSet) <==>
      exists o :: o in domainSet && !IsStringBlank(o) && forall i :: 0 <= i < |Normalize(o.value)| ==> Normalize(o.value)[i] == '.'
  {
  }

  /**
   * A kept entry whose normalised form does not end with a dot is registered exactly, so the trie
   * contains it, and therefore matches it.
   */
  lemma LoadedDomainContained(domainSet: set<Option<string>>, d: string)
    requires Some(d) in domainSet && Trim(d) != []
    requires Normalize(d)[|Normalize(d)| - 1] != '.'
    ensures ContainsDomain(LoadedLabels(domainSet), Normalize(d))
    ensures MatchesDomain(LoadedLabels(domainSet), Normalize(d))
  {
    var n := Normalize(d);
    NormalizeIsNormal(d);
    JavaSplitAgrees(n);
    assert n[|n| - 1] != '.';
    assert EntrySplit(d) == Success(SplitAll(n));
    assert SplitAll(Lower(n)) in LoadedLabels(domainSet);
    ContainsImpliesMatches(LoadedLabels(domainSet), n);
  }

  /** The entry "com." is registered as the single label "com", so the trie does not contain "com.". */
  lemma TrailingDotEntryNotContained()
    ensures LoadedLabels({Some("com.")}) == {["com"]}
    ensures !ContainsDomain(LoadedLabels({Some("com.")}), "com.")
  {
    var d := "com.";
    assert d[0] == 'c';
    TrimOfTrimmed(d);
    LowerOfLowerCase(d);
    assert Normalize(d) == d;
    TrailingDotDisagrees();
    assert EntrySplit(d) == Success(["com"]);
    assert Some(d) in {Some(d)} && !IsStringBlank(Some(d));
  }

  /** When `local@d` is an email and `d` was loaded, the email is disposable. */
  lemma LoadedEmailIsDisposable(domainSet: set<Option<string>>, local: string, d: string)
    requires Some(d) in domainSet && IsEmail(Some(local + "@" + d))
    ensures MatchesDomain(LoadedLabels(domainSet), Normalize(GetDomainFromEmail(Some(local + "@" + d)).value))
  {
    EmailDomainIs(local, d);
    EmailHostLoadable(d);
    LoadedDomainContained(domainSet, d);
  }

  /** A host the email pattern accepts is not blank and, once normalised, does not end with a dot. */
  lemma EmailHostLoadable(h: string)
    requires ScanHost(EmailHost, h)
    ensures Trim(h) != [] && Normalize(h)[|Normalize(h)| - 1] != '.'
  {
    ScanHostIsTrimmed(EmailHost, h);
    LetterEndedLoadable(h);
  }

  /** A string that normalises to its lower case and ends with a letter is not blank and does not end with a dot once normalised. */
  lemma LetterEndedLoadable(h: string)
    requires h != [] && Normalize(h) == Lower(h) && IsAsciiLetter(Normalize(h)[|h| - 1])
    ensures Trim(h) != [] && Normalize(h)[|Normalize(h)| - 1] != '.'
  {
    assert |Normalize(h)| == |h|;
  }

  // ---------------------------------------------------------------- the checker object

  class SuffixTrieDisposable {
    /** The trie built at construction. */
    const trie: DomainSuffixTrie

    ghost predicate Valid()
      reads this, trie
    {
      trie.Valid()
    }

    constructor (trie: DomainSuffixTrie)
      ensures this.trie == trie
    {
      this.trie := trie;
    }

    /**
     * `new SuffixTrieDisposable(loader)`, given the set the loader yields: every entry that is not null
     * and not blank is trimmed, lower-cased and added; the first entry `add` rejects aborts construction
     * with its exception. A null set throws NullPointerException.
     */
    static method Create(domainSet: Option<set<Option<string>>>) returns (r: Result<SuffixTrieDisposable>)
      ensures domainSet.None? ==> r == Failure(NullPointerException)
      ensures domainSet.Some? ==> (r.Failure? <==> Rejected(domainSet.value))
      ensures domainSet.Some? && r.Failure? ==> r.error == IllegalArgumentException
      ensures domainSet.Some? && r.Success? ==>
        && fresh(r.value) && fresh(r.value.trie) && r.value.Valid()
        && r.value.trie.Contents == LoadedLabels(domainSet.value)
    {
      if domainSet.None? {
        return Failure(NullPointerException);
      }
      var trie := new DomainSuffixTrie();
      var rest := domainSet.value;
      while rest != {}
        invariant rest <= domainSet.value
        invariant fresh(trie) && trie.Valid()
        invariant trie.Contents == LoadedLabels(domainSet.value - rest)
        invariant !Rejected(domainSet.value - rest)
        decreases |rest|
      {
        var domain :| domain in rest;
        ghost var done := domainSet.value - rest;
        assert domainSet.value - (rest - {domain}) == done + {domain};
        if domain.Some? && Trim(domain.value) != [] {
          var added := trie.Add(Some(Normalize(domain.value)));
          if added.Failure? {
            assert domain in domainSet.value && EntrySplit(domain.value).Failure?;
            return Failure(added.error);
          }
          EntryAdded(done, domain);
        } else {
          EntrySkipped(done, domain);
        }
        rest := rest - {domain};
      }
      assert domainSet.value - rest == domainSet.value;
      var checker := new SuffixTrieDisposable(trie);
      return Success(checker);
    }

    /** `isDisposableDomain`: the trimmed, lower-cased domain or one of its parent domains was loaded. */
    method IsDisposableDomain(domain: string) returns (r: bool)
      requires Valid()
      ensures r == MatchesDomain(trie.Contents, Normalize(domain))
    {
      r := trie.Matches(Some(Normalize(domain)));
    }

    /**
     * `validate`: false for null or blank input and for anything that is not an email (a bare domain
     * included); for an email, whether the domain after its last '@' is disposable.
     */
    method Validate(domainOrEmail: Option<string>) returns (r: bool)
      requires Valid()
      ensures IsStringBlank(domainOrEmail) ==> !r
      ensures !IsEmail(domainOrEmail) ==> !r
      ensures IsEmail(domainOrEmail) ==>
        r == MatchesDomain(trie.Contents, Normalize(GetDomainFromEmail(domainOrEmail).value))
    {
      if domainOrEmail.None? || Trim(domainOrEmail.value) == [] {
        return false;
      }
      var domain := GetDomainFromEmail(domainOrEmail);
      if domain.None? {
        return false;
      }
      r := IsDisposableDomain(domain.value);
    }

    /** `validateEmail`: delegates to `validate`, so it answers exactly what `validate` answers. */
    method ValidateEmail(email: Option<string>) returns (r: bool)
      requires Valid()
      ensures IsStringBlank(email) ==> !r
      ensures !IsEmail(email) ==> !r
      ensures IsEmail(email) ==> r == MatchesDomain(trie.Contents, Normalize(GetDomainFromEmail(email).value))
    {
      r := Validate(email);
    }

    /** `validateDomain`: false unless the input is a domain; otherwise whether it is disposable. */
    method ValidateDomain(domain: Option<string>) returns (r: bool)
      requires Valid()
      ensures !IsDomain(domain) ==> !r
      ensures IsDomain(domain) ==> r == MatchesDomain(trie.Contents, Normalize(domain.value))
    {
      if !IsDomain(domain) {
        return false;
      }
      r := IsDisposableDomain(domain.value);
    }
  }
}
