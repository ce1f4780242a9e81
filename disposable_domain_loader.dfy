/**
 * DisposableDomainLoader: the three factories, as functions from their input to the set of domains
 * `getDomains()` then yields. Reading the file is outside the model: `FromFile` receives what reading
 * it produced, as a `FileRead`.
 */
module Loader {
  import opened Wrappers
  import opened JavaString

  /** `empty()`: a loader that yields no domains. */
  function Empty(): (r: set<string>)
    ensures forall d :: d !in r
  {
    {}
  }

  /**
   * The image of `domains` under trim-then-lowercase; a null element is skipped here and rejected by `Of`,
   * whose contract states its members.
   */
  function Image(domains: set<Option<string>>): set<string> {
    set o | o in domains && o.Some? :: Normalize(o.value)
  }

  /**
   * `of(domains)`: the set of trimmed, lower-cased entries. A null set, and a null entry (which `trim`
   * dereferences), throw NullPointerException.
   */
  function Of(domains: Option<set<Option<string>>>): (r: Result<set<string>>)
    ensures domains.None? || None in domains.value <==> r == Failure(NullPointerException)
    ensures r.Success? ==> forall x :: x in r.value <==> exists d :: Some(d) in domains.value && Normalize(d) == x
    ensures r.Success? ==> |r.value| <= |domains.value|
  {
    if domains.None? || None in domains.value then Failure(NullPointerException)
    else
      ImageSmaller(domains.value);
      Success(Image(domains.value))
  }

  /** Mapping a set can only merge elements. */
  lemma ImageSmaller(domains: set<Option<string>>)
    ensures |Image(domains)| <= |domains|
    decreases |domains|
  {
    if domains != {} {
      var o :| o in domains;
      var rest := domains - {o};
      ImageSmaller(rest);
      ImageStep(rest, o);
      assert domains == rest + {o};
    }
  }

  /** The image grows by at most the one element an added entry maps to. */
  lemma ImageStep(rest: set<Option<string>>, o: Option<string>)
    ensures o.Some? ==> Image(rest + {o}) == Image(rest) + {Normalize(o.value)}
    ensures o.None? ==> Image(rest + {o}) == Image(rest)
  {
  }

  /** Without a null entry, `of` yields the image. */
  lemma OfIsImage(domains: set<Option<string>>)
    requires None !in domains
    ensures Of(Some(domains)) == Success(Image(domains))
  {
  }

  /** Every domain `of` yields is its own trim and its own lower case. */
  lemma OfNormalizes(domains: set<Option<string>>)
    requires None !in domains
    ensures forall x :: x in Of(Some(domains)).value ==> Trim(x) == x && Lower(x) == x
  {
    forall o | o in domains && o.Some? ensures var x := Normalize(o.value); Trim(x) == x && Lower(x) == x {
      NormalizeIsNormal(o.value);
    }
  }

  /** `of` does not drop blanks: an all-space entry is kept, as the empty string. */
  lemma OfKeepsBlank(domains: set<Option<string>>, blank: string)
    requires None !in domains && Some(blank) in domains && Trim(blank) == []
    ensures "" in Of(Some(domains)).value
  {
    assert Normalize(blank) == "";
  }

  /** A single space before or after a string without surrounding trim spaces does not change its normalisation. */
  lemma NormalizePadded(s: string)
    requires s != [] && !IsTrimSpace(s[0]) && !IsTrimSpace(s[|s| - 1])
    ensures Normalize(" " + s) == Lower(s) && Normalize(s + " ") == Lower(s)
  {
    TrimPadded(s);
  }

  lemma ImageOfPair(a: string, b: string)
    ensures Image({Some(a), Some(b)}) == {Normalize(a), Normalize(b)}
  {
    var domains := {Some(a), Some(b)};
    assert Some(a) in domains && Normalize(Some(a).value) == Normalize(a);
    assert Some(b) in domains && Normalize(Some(b).value) == Normalize(b);
  }

  /** Two entries with the same normalisation yield one domain. */
  lemma OfPairCollapses(a: string, b: string)
    requires Normalize(a) == Normalize(b)
    ensures Of(Some({Some(a), Some(b)})) == Success({Normalize(a)})
  {
    OfPair(a, b);
    var na, nb := Normalize(a), Normalize(b);
    assert {na, nb} == {na};
  }

  /** `of` on two entries yields their two normalisations. */
  lemma OfPair(a: string, b: string)
    ensures Of(Some({Some(a), Some(b)})) == Success({Normalize(a), Normalize(b)})
  {
    OfIsImage({Some(a), Some(b)});
    ImageOfPair(a, b);
  }

  /** Entries that differ only in a surrounding space collapse into one domain: `of` can shrink the set. */
  lemma OfMergesPadded(s: string)
    requires s != [] && !IsTrimSpace(s[0]) && !IsTrimSpace(s[|s| - 1])
    ensures Of(Some({Some(" " + s), Some(s + " ")})) == Success({Lower(s)})
    ensures |{Some(" " + s), Some(s + " ")}| == 2
  {
    NormalizePadded(s);
    OfPairCollapses(" " + s, s + " ");
    assert (" " + s)[0] != (s + " ")[0];
  }

  /** Normalising the output of `of` again changes nothing: `of` is idempotent. */
  lemma OfIdempotent(domains: set<Option<string>>)
    requires None !in domains
    ensures var once := Image(domains);
      Of(Some(set x | x in once :: Some(x))) == Success(once)
  {
    var once := Image(domains);
    var wrapped := set x | x in once :: Some(x);
    forall o | o in domains && o.Some? ensures Normalize(Normalize(o.value)) == Normalize(o.value) {
      NormalizeIsNormal(o.value);
    }
    forall x | x in once ensures x in Image(wrapped) {
      assert Some(x) in wrapped;
    }
    assert None !in wrapped;
    assert Image(wrapped) == once;
  }

  /** The line pipeline of `fromFile`: trim, lower-case, and drop the lines left empty. */
  function Lines(lines: seq<string>): (r: set<string>)
    ensures forall x :: x in r <==> exists i :: 0 <= i < |lines| && Trim(lines[i]) != [] && Normalize(lines[i]) == x
    ensures forall x :: x in r ==> x != [] && Trim(x) == x && Lower(x) == x
  {
    assert forall i :: 0 <= i < |lines| ==> Trim(Normalize(lines[i])) == Normalize(lines[i]) && Lower(Normalize(lines[i])) == Normalize(lines[i]) by {
      forall i | 0 <= i < |lines| ensures Trim(Normalize(lines[i])) == Normalize(lines[i]) && Lower(Normalize(lines[i])) == Normalize(lines[i]) {
        NormalizeIsNormal(lines[i]);
      }
    }
    set i | 0 <= i < |lines| && Normalize(lines[i]) != [] :: Normalize(lines[i])
  }

  /**
   * What reading the file gives the stream pipeline: every line; an `IOException` from `Files.lines`,
   * which cannot open the file; or an `UncheckedIOException` thrown by the stream while it reads lines.
   */
  datatype FileRead = Opened(lines: seq<string>) | OpenFailed | ReadFailed

  /**
   * `fromFile`: the lines' domains once the file is read; the empty set when it cannot be opened, the
   * only failure the catch handles; and the stream's `UncheckedIOException`, which escapes the catch.
   */
  function FromFile(file: FileRead): (r: Result<set<string>>)
    ensures file.Opened? ==> r == Success(Lines(file.lines))
    ensures file.OpenFailed? ==> r == Success({})
    ensures file.ReadFailed? ==> r == Failure(UncheckedIOException)
  {
    match file
    case Opened(lines) => Success(Lines(lines))
    case OpenFailed => Success({})
    case ReadFailed => Failure(UncheckedIOException)
  }

  /** `fromFile` on a file it reads yields what `of` yields for the same lines, less the blank ones. */
  lemma FromFileIsOfWithoutBlanks(lines: seq<string>)
    ensures FromFile(Opened(lines)) == Success(Of(Some(set i | 0 <= i < |lines| :: Some(lines[i]))).value - {""})
  {
    var domains := set i | 0 <= i < |lines| :: Some(lines[i]);
    LinesAreOfWithoutBlanks(lines, domains);
  }

  /** The non-blank lines, normalised, are the domains of `of` over the same lines less the empty string. */
  lemma LinesAreOfWithoutBlanks(lines: seq<string>, domains: set<Option<string>>)
    requires domains == set i | 0 <= i < |lines| :: Some(lines[i])
    ensures Lines(lines) == Of(Some(domains)).value - {""}
  {
    var of := Of(Some(domains)).value;
    forall x | x in of - {""} ensures x in Lines(lines) {
      var d :| Some(d) in domains && Normalize(d) == x;
      var i :| 0 <= i < |lines| && Some(lines[i]) == Some(d);
      assert Trim(lines[i]) != [];
    }
    forall i | 0 <= i < |lines| && Trim(lines[i]) != [] ensures Normalize(lines[i]) in of - {""} {
      assert Some(lines[i]) in domains;
    }
  }
}
