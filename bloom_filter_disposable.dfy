/**
 * BloomFilterDisposable: the checker that loads a set of domains into a BloomFilter sized for that
 * set, and then answers whether an email or a domain is disposable by an exact-key "might contain"
 * lookup. The loader is represented by the set it yields.
 */
module BloomDisposable {
  import opened Wrappers
  import opened JavaInt
  import opened JavaString
  import opened Checker
  import opened Bloom

  /** The false-positive probability the constructor asks for. */
  const FPP: Double := Num(0.00001)

  /** `Set.size()`: the number of elements, or `Integer.MAX_VALUE` when there are more. */
  function SetSize(domainSet: set<Option<string>>): (r: Int64)
    ensures 0 <= r <= INT_MAX && (r == 0 <==> domainSet == {})
  {
    if |domainSet| > INT_MAX then INT_MAX else |domainSet|
  }

  /** The entries construction adds: not null and not blank. */
  ghost function KeptEntries(domainSet: set<Option<string>>): set<Option<string>> {
    set o | o in domainSet && !IsStringBlank(o)
  }

  /** The trimmed, lower-cased domains construction adds to the filter. */
  ghost function LoadedNames(domainSet: set<Option<string>>): set<string> {
    set o | o in KeptEntries(domainSet) :: Normalize(o.value)
  }

  /** Adding a kept entry adds its normalised domain, and one more kept entry. */
  lemma LoadedStepKept(done: set<Option<string>>, o: Option<string>)
    requires o !in done && !IsStringBlank(o)
    ensures LoadedNames(done + {o}) == LoadedNames(done) + {Normalize(o.value)}
    ensures |KeptEntries(done + {o})| == |KeptEntries(done)| + 1
  {
    assert KeptEntries(done + {o}) == KeptEntries(done) + {o} by {
      forall p | p in done + {o} && !IsStringBlank(p) ensures p in KeptEntries(done) + {o} {
        if p != o {
          assert p in done;
        }
      }
    }
    assert o !in KeptEntries(done);
  }

  /** Adding a null or blank entry changes nothing construction loads. */
  lemma LoadedStepSkipped(done: set<Option<string>>, o: Option<string>)
    requires IsStringBlank(o)
    ensures LoadedNames(done + {o}) == LoadedNames(done)
    ensures KeptEntries(done + {o}) == KeptEntries(done)
  {
    assert forall p :: p in done + {o} && !IsStringBlank(p) ==> p in done;
  }

  /** An empty loaded set sizes the filter for zero insertions, which it rejects. */
  lemma EmptySetIsRejected(optimalSize: Int64, optimalK: Int32)
    ensures Configure(SetSize({}), FPP, optimalSize, optimalK) == Failure(IllegalArgumentException)
  {
  }

  /** A non-empty set fits in an `int`, so the insertion guard as written and the intended one agree on it. */
  lemma SizingAgreesWithGuard(domainSet: set<Option<string>>, optimalSize: Int64, optimalK: Int32)
    ensures ConfigureAsWritten(SetSize(domainSet), FPP, optimalSize, optimalK) == Configure(SetSize(domainSet), FPP, optimalSize, optimalK)
  {
    GuardAgreesInIntRange(SetSize(domainSet), FPP, optimalSize, optimalK);
  }

  /** When `local@d` is an email and `d` was loaded, the email's normalised domain was added to the filter. */
  lemma LoadedEmailWasAdded(domainSet: set<Option<string>>, local: string, d: string)
    requires Some(d) in domainSet && IsEmail(Some(local + "@" + d))
    ensures Normalize(GetDomainFromEmail(Some(local + "@" + d)).value) in LoadedNames(domainSet)
  {
    EmailDomainIs(local, d);
    ScanHostIsTrimmed(EmailHost, d);
    TrimOfTrimmed(d);
    assert !IsStringBlank(Some(d));
  }

  class BloomFilterDisposable {
    /** The filter built at construction. */
    const filter: BloomFilter

    /** The filter is valid and its set bits are exactly those of the names added to it. */
    ghost predicate Valid()
      reads this, filter, filter.bits
    {
      filter.Valid() && BitsOf(filter.bits[..], filter.Added, HashFn(filter.hashFunctions, filter.size))
    }

    constructor (filter: BloomFilter)
      ensures this.filter == filter
    {
      this.filter := filter;
    }

    /**
     * `new BloomFilterDisposable(loader)`, given the set the loader yields and the results `optimalSize`
     * and `optimalK` of the sizing formulas for `set.size()` insertions at probability 0.00001: the
     * filter is built for that many insertions, then every entry that is not null and not blank is
     * trimmed, lower-cased and added. A null set throws NullPointerException, and so a filter that
     * cannot be configured, which includes the empty set, aborts construction.
     */
    static method Create(domainSet: Option<set<Option<string>>>, optimalSize: Int64, optimalK: Int32)
      returns (r: Result<BloomFilterDisposable>)
      ensures domainSet.None? ==> r == Failure(NullPointerException)
      ensures domainSet == Some({}) ==> r == Failure(IllegalArgumentException)
      ensures domainSet.Some? && Configure(SetSize(domainSet.value), FPP, optimalSize, optimalK).Failure? ==>
        r == Failure(Configure(SetSize(domainSet.value), FPP, optimalSize, optimalK).error)
      ensures domainSet.Some? && Configure(SetSize(domainSet.value), FPP, optimalSize, optimalK).Success? ==>
        && r.Success? && fresh(r.value) && fresh(r.value.filter) && fresh(r.value.filter.bits) && r.value.Valid()
        && (r.value.filter.size, r.value.filter.hashFunctions) == Configure(SetSize(domainSet.value), FPP, optimalSize, optimalK).value
        && r.value.filter.Added == LoadedNames(domainSet.value)
        && r.value.filter.elementCount == |KeptEntries(domainSet.value)|
        && BitsOf(r.value.filter.bits[..], LoadedNames(domainSet.value), HashFn(r.value.filter.hashFunctions, r.value.filter.size))
    {
      if domainSet.None? {
        return Failure(NullPointerException);
      }
      SizingAgreesWithGuard(domainSet.value, optimalSize, optimalK);
      var created := BloomFilter.Create(SetSize(domainSet.value), FPP, optimalSize, optimalK);
      if created.Failure? {
        return Failure(created.error);
      }
      var filter := created.value;
      ClearedBitsOfNothing(filter.bits[..], HashFn(filter.hashFunctions, filter.size));
      Load(filter, domainSet.value);
      var checker := new BloomFilterDisposable(filter);
      return Success(checker);
    }

    /**
     * The loop of the constructor: every kept entry, trimmed and lower-cased, is added to the empty `filter`.
     * Afterwards the set bits are exactly those the loaded names hash to.
     */
    static method Load(filter: BloomFilter, domainSet: set<Option<string>>)
      requires filter.Valid() && filter.Added == {} && filter.elementCount == 0
      requires BitsOf(filter.bits[..], {}, HashFn(filter.hashFunctions, filter.size))
      modifies filter, filter.bits
      ensures filter.Valid()
      ensures filter.Added == LoadedNames(domainSet)
      ensures filter.elementCount == |KeptEntries(domainSet)|
      ensures BitsOf(filter.bits[..], LoadedNames(domainSet), HashFn(filter.hashFunctions, filter.size))
    {
      var rest := domainSet;
      assert LoadedNames(domainSet - rest) == {};
      while rest != {}
        invariant rest <= domainSet
        invariant filter.Valid()
        invariant filter.Added == LoadedNames(domainSet - rest)
        invariant filter.elementCount == |KeptEntries(domainSet - rest)|
        invariant BitsOf(filter.bits[..], LoadedNames(domainSet - rest), HashFn(filter.hashFunctions, filter.size))
        decreases |rest|
      {
        var domain :| domain in rest;
        ghost var done := domainSet - rest;
        assert domainSet - (rest - {domain}) == done + {domain};
        LoadEntry(filter, done, domain);
        rest := rest - {domain};
      }
      assert domainSet - rest == domainSet;
    }

    /**
     * One turn of that loop: a kept entry is added, normalised, which sets the bits of its normalised
     * domain; a null or blank one is skipped and changes no bit.
     */
    static method LoadEntry(filter: BloomFilter, ghost done: set<Option<string>>, domain: Option<string>)
      requires filter.Valid() && domain !in done
      requires filter.Added == LoadedNames(done) && filter.elementCount == |KeptEntries(done)|
      requires BitsOf(filter.bits[..], LoadedNames(done), HashFn(filter.hashFunctions, filter.size))
      modifies filter, filter.bits
      ensures filter.Valid()
      ensures filter.Added == LoadedNames(done + {domain})
      ensures filter.elementCount == |KeptEntries(done + {domain})|
      ensures !IsStringBlank(domain) ==>
        filter.bits[..] == SetBits(old(filter.bits[..]), Hashes(Normalize(domain.value), filter.hashFunctions, filter.size))
      ensures IsStringBlank(domain) ==> filter.bits[..] == old(filter.bits[..])
      ensures BitsOf(filter.bits[..], LoadedNames(done + {domain}), HashFn(filter.hashFunctions, filter.size))
    {
      if domain.Some? && Trim(domain.value) != [] {
        ghost var before := filter.bits[..];
        ghost var h := HashFn(filter.hashFunctions, filter.size);
        var name := Normalize(domain.value);
        assert h(name) == Hashes(name, filter.hashFunctions, filter.size);
        var _ := filter.Add(Some(name));
        LoadedStepKept(done, domain);
        BitsOfAdd(before, LoadedNames(done), name, h);
      } else {
        LoadedStepSkipped(done, domain);
      }
    }

    /**
     * `isDisposableDomain`: the filter might contain the trimmed, lower-cased domain; it is sure to for a
     * loaded one, and it answers true exactly when each bit of the domain is a bit of some loaded name.
     */
    method IsDisposableDomain(domain: string) returns (r: bool)
      requires Valid()
      ensures r == filter.Accepts(Normalize(domain))
      ensures Normalize(domain) in filter.Added ==> r
      ensures r <==> forall j :: 0 <= j < filter.hashFunctions ==>
        HashedBy(filter.Added, HashFn(filter.hashFunctions, filter.size), Hashes(Normalize(domain), filter.hashFunctions, filter.size)[j])
    {
      r := filter.MightContain(Some(Normalize(domain)));
      AcceptsIffCovered(filter.bits[..], filter.Added, Normalize(domain), filter.hashFunctions, filter.size);
    }

    /**
     * `validate`: false for null or blank input and for anything that is not an email (a bare domain
     * included); for an email, whether the filter might contain its normalised domain, which it does
     * whenever that domain was loaded.
     */
    method Validate(domainOrEmail: Option<string>) returns (r: bool)
      requires Valid()
      ensures IsStringBlank(domainOrEmail) ==> !r
      ensures !IsEmail(domainOrEmail) ==> !r
      ensures IsEmail(domainOrEmail) ==> r == filter.Accepts(Normalize(GetDomainFromEmail(domainOrEmail).value))
      ensures IsEmail(domainOrEmail) && Normalize(GetDomainFromEmail(domainOrEmail).value) in filter.Added ==> r
    {
      if domainOrEmail.None? || Trim(domainOrEmail.value) == [] {
        return false;
      }
      var domain := GetDomainFromEmail(domainOrEmail);
      if domain.None? {
        return false;
      }
      r := IsDisposableDomain(domain.value);
    }

    /** `validateEmail`: delegates to `validate`, so it answers exactly what `validate` answers. */
    method ValidateEmail(email: Option<string>) returns (r: bool)
      requires Valid()
      ensures IsStringBlank(email) ==> !r
      ensures !IsEmail(email) ==> !r
      ensures IsEmail(email) ==> r == filter.Accepts(Normalize(GetDomainFromEmail(email).value))
      ensures IsEmail(email) && Normalize(GetDomainFromEmail(email).value) in filter.Added ==> r
    {
      r := Validate(email);
    }

    /**
     * `validateDomain`: false unless the input is a domain; otherwise an exact-key lookup of the normalised
     * domain, with no parent-domain matching.
     */
    method ValidateDomain(domain: Option<string>) returns (r: bool)
      requires Valid()
      ensures !IsDomain(domain) ==> !r
      ensures IsDomain(domain) ==> r == filter.Accepts(Normalize(domain.value))
      ensures IsDomain(domain) && Normalize(domain.value) in filter.Added ==> r
    {
      if !IsDomain(domain) {
        return false;
      }
      r := IsDisposableDomain(domain.value);
    }
  }
}
