/**
 * DomainsLibraryManager: the legacy lookup over three domain sets, a disposable list and the
 * block and allow overlays. The static sets of the Java class are the fields of one object here;
 * loading them from resources and fetching the remote list are outside the model, so a refresh
 * receives the fetched set (`None` when the fetch produced null).
 */
module Manager {
  import opened Wrappers
  import opened JavaString

  /** The answer `containDomain` gives for a lower-cased domain against the three sets. */
  function Lookup(black: set<string>, white: set<string>, disposable: set<string>, d: string): (r: bool)
    ensures r <==> d in black || (d !in white && d in disposable)
  {
    if d in black then true
    else if d in white then false
    else d in disposable
  }

  /** Of two finite sets, the elements gained plus those kept make up the new set, and likewise for the old one. */
  lemma DifferenceCounts(before: set<string>, after: set<string>)
    ensures |after| == |before| + |after - before| - |before - after|
  {
    var both := before * after;
    assert after == (after - before) + both;
    assert before == (before - after) + both;
    assert (after - before) * both == {};
    assert (before - after) * both == {};
  }

  class DomainsLibraryManager {
    /** `disposableEmailDomainsSet`. */
    var disposable: set<string>
    /** `whiteEmailDomainsSet`: the allow overlay. */
    var white: set<string>
    /** `blackEmailDomainsSet`: the block overlay. */
    var black: set<string>

    /** The three sets as the resource files provided them. */
    constructor (disposable: set<string>, black: set<string>, white: set<string>)
      ensures this.disposable == disposable && this.black == black && this.white == white
    {
      this.disposable := disposable;
      this.black := black;
      this.white := white;
    }

    /**
     * `containDomain`: null throws NullPointerException; otherwise the lower-cased domain is disposable when
     * it is blocked, and otherwise when it is not allowed and on the disposable list.
     */
    function ContainDomain(domain: Option<string>): (r: Result<bool>)
      reads this
      ensures domain.None? <==> r == Failure(NullPointerException)
      ensures domain.Some? ==> r.Success?
      ensures domain.Some? ==> var d := Lower(domain.value);
        r.value <==> d in black || (d !in white && d in disposable)
    {
      if domain.None? then Failure(NullPointerException)
      else Success(Lookup(black, white, disposable, Lower(domain.value)))
    }

    /** `addBlackDomain`: afterwards the domain is disposable whatever the other sets say. */
    method AddBlackDomain(domain: Option<string>) returns (o: Outcome)
      modifies this
      ensures domain.None? ==> o == Fail(NullPointerException) && black == old(black)
      ensures domain.Some? ==> o == Pass && black == old(black) + {Lower(domain.value)}
      ensures white == old(white) && disposable == old(disposable)
      ensures domain.Some? ==> ContainDomain(domain) == Success(true)
    {
      if domain.None? {
        return Fail(NullPointerException);
      }
      black := black + {Lower(domain.value)};
      return Pass;
    }

    /** `addWhiteDomain`: afterwards the domain is disposable only when it is also blocked. */
    method AddWhiteDomain(domain: Option<string>) returns (o: Outcome)
      modifies this
      ensures domain.None? ==> o == Fail(NullPointerException) && white == old(white)
      ensures domain.Some? ==> o == Pass && white == old(white) + {Lower(domain.value)}
      ensures black == old(black) && disposable == old(disposable)
      ensures domain.Some? ==> ContainDomain(domain) == Success(Lower(domain.value) in black)
    {
      if domain.None? {
        return Fail(NullPointerException);
      }
      white := white + {Lower(domain.value)};
      return Pass;
    }

    /** `removeBlackDomain`: afterwards the domain is disposable only when not allowed and on the list. */
    method RemoveBlackDomain(domain: Option<string>) returns (o: Outcome)
      modifies this
      ensures domain.None? ==> o == Fail(NullPointerException) && black == old(black)
      ensures domain.Some? ==> o == Pass && black == old(black) - {Lower(domain.value)}
      ensures white == old(white) && disposable == old(disposable)
      ensures domain.Some? ==>
        ContainDomain(domain) == Success(Lower(domain.value) !in white && Lower(domain.value) in disposable)
    {
      if domain.None? {
        return Fail(NullPointerException);
      }
      black := black - {Lower(domain.value)};
      return Pass;
    }

    /** `removeWhiteDomain`: afterwards the domain is disposable when blocked or on the list. */
    method RemoveWhiteDomain(domain: Option<string>) returns (o: Outcome)
      modifies this
      ensures domain.None? ==> o == Fail(NullPointerException) && white == old(white)
      ensures domain.Some? ==> o == Pass && white == old(white) - {Lower(domain.value)}
      ensures black == old(black) && disposable == old(disposable)
      ensures domain.Some? ==>
        ContainDomain(domain) == Success(Lower(domain.value) in black || Lower(domain.value) in disposable)
    {
      if domain.None? {
        return Fail(NullPointerException);
      }
      white := white - {Lower(domain.value)};
      return Pass;
    }

    /**
     * `refreshDisposableDomainsByTxtUrl`, given what the fetch returned: a null or empty set throws
     * RuntimeException and changes nothing; otherwise the list is replaced by the fetched set, and the
     * counts it logs, the domains gained and the domains dropped, are the result.
     */
    method Refresh(fetched: Option<set<string>>) returns (r: Result<(nat, nat)>)
      modifies this
      ensures fetched.None? || fetched.value == {} ==> r == Failure(RuntimeException) && disposable == old(disposable)
      ensures fetched.Some? && fetched.value != {} ==>
        && r == Success((|fetched.value - old(disposable)|, |old(disposable) - fetched.value|))
        && disposable == fetched.value
        && |disposable| == |old(disposable)| + r.value.0 - r.value.1
      ensures black == old(black) && white == old(white)
    {
      if fetched.None? || fetched.value == {} {
        return Failure(RuntimeException);
      }
      var target := fetched.value;
      var added := target - disposable;
      var removed := disposable - target;
      DifferenceCounts(disposable, target);
      disposable := target;
      r := Success((|added|, |removed|));
    }
  }

  /** `containDomain` ignores case: a domain and its lower-case form get the same answer. */
  lemma ContainDomainIgnoresCase(m: DomainsLibraryManager, domain: string)
    ensures m.ContainDomain(Some(domain)) == m.ContainDomain(Some(Lower(domain)))
  {
    LowerIdempotent(domain);
  }

  /** A blocked domain is disposable even when it is also allowed. */
  lemma BlockBeatsAllow(m: DomainsLibraryManager, domain: string)
    requires Lower(domain) in m.black && Lower(domain) in m.white
    ensures m.ContainDomain(Some(domain)) == Success(true)
  {
  }

  /** An allowed domain that is not blocked is never disposable, even on the disposable list. */
  lemma AllowBeatsList(m: DomainsLibraryManager, domain: string)
    requires Lower(domain) !in m.black && Lower(domain) in m.white
    ensures m.ContainDomain(Some(domain)) == Success(false)
  {
  }
}
