/**
 * DisposableChecker: the email and domain recognisers, classification, and extraction of the
 * domain after the last '@'. The two regular expressions are written out as scanners that cut
 * the input at its first '@' and then at each '.', and each scanner is proved equal to a
 * description of the accepted strings label by label.
 */
module Checker {
  import opened Wrappers
  import opened JavaString

  // ---------------------------------------------------------------- character classes

  predicate IsAsciiLetter(c: char) {
    'a' <= c <= 'z' || 'A' <= c <= 'Z'
  }

  predicate IsAsciiAlnum(c: char) {
    IsAsciiLetter(c) || '0' <= c <= '9'
  }

  /** `\w` without UNICODE_CHARACTER_CLASS: `[A-Za-z0-9_]`. */
  predicate IsWordChar(c: char) {
    IsAsciiAlnum(c) || c == '_'
  }

  /** The local-part class `[\w!#$%&'*+/=?`{|}~^-]`. */
  predicate IsAtomChar(c: char) {
    IsWordChar(c) || c in "!#$%&'*+/=?`{|}~^-"
  }

  /** The host class `[a-zA-Z0-9-]`. */
  predicate IsHostChar(c: char) {
    IsAsciiAlnum(c) || c == '-'
  }

  // ---------------------------------------------------------------- labels

  /** `[\w!#$%&'*+/=?`{|}~^-]+`: one dot-free piece of the local part. */
  predicate IsAtom(l: string) {
    |l| >= 1 && forall i :: 0 <= i < |l| ==> IsAtomChar(l[i])
  }

  /** `[a-zA-Z]{2,63}`: the final label of both patterns. */
  predicate IsTld(l: string) {
    2 <= |l| <= 63 && forall i :: 0 <= i < |l| ==> IsAsciiLetter(l[i])
  }

  /** `[a-zA-Z0-9-]+`: a host label before the final one in an email. */
  predicate IsEmailHostLabel(l: string) {
    |l| >= 1 && forall i :: 0 <= i < |l| ==> IsHostChar(l[i])
  }

  /** `[a-zA-Z0-9](?:[a-zA-Z0-9-]{0,61}[a-zA-Z0-9])?`: 1 to 63 alphanumerics or hyphens, not starting or ending with a hyphen. */
  predicate IsDomainLabel(l: string) {
    && 1 <= |l| <= 63
    && IsAsciiAlnum(l[0]) && IsAsciiAlnum(l[|l| - 1])
    && forall i :: 0 <= i < |l| ==> IsHostChar(l[i])
  }

  /** Which host rule applies: the host part of EMAIL_PATTERN or the whole of DOMAIN_PATTERN. */
  datatype HostRule = EmailHost | DomainHost

  predicate LeadingLabelOk(rule: HostRule, l: string) {
    match rule
    case EmailHost => IsEmailHostLabel(l)
    case DomainHost => IsDomainLabel(l)
  }

  // ---------------------------------------------------------------- scanners

  /** The local part `A+(?:\.A+)*`, scanned piece by piece at each '.'. */
  function ScanLocal(x: string): bool
    decreases |x|
  {
    var dot := IndexOf(x, '.');
    if dot < 0 then IsAtom(x) else IsAtom(x[..dot]) && ScanLocal(x[dot + 1..])
  }

  /** What follows the first label of a host: more leading labels, each ended by '.', then the final label. */
  function ScanHostTail(rule: HostRule, t: string): bool
    decreases |t|
  {
    var dot := IndexOf(t, '.');
    if dot < 0 then IsTld(t) else LeadingLabelOk(rule, t[..dot]) && ScanHostTail(rule, t[dot + 1..])
  }

  /** `(?:H\.)+[a-zA-Z]{2,63}`: at least one leading label `H`, then the final label. */
  function ScanHost(rule: HostRule, h: string): bool {
    var dot := IndexOf(h, '.');
    dot >= 0 && LeadingLabelOk(rule, h[..dot]) && ScanHostTail(rule, h[dot + 1..])
  }

  /** EMAIL_PATTERN matches the whole input: a local part, '@', and an email host. */
  function MatchesEmailPattern(s: string): bool {
    var at := IndexOf(s, '@');
    at >= 0 && ScanLocal(s[..at]) && ScanHost(EmailHost, s[at + 1..])
  }

  /** DOMAIN_PATTERN matches the whole input. */
  function MatchesDomainPattern(s: string): bool {
    ScanHost(DomainHost, s)
  }

  // ---------------------------------------------------------------- what the patterns accept, label by label

  /** Every label of `L` is an atom. */
  ghost predicate AllAtoms(L: seq<string>) {
    forall k :: 0 <= k < |L| ==> IsAtom(L[k])
  }

  /** The last label of `L` is 2 to 63 letters and every earlier one is a leading label of `rule`. */
  ghost predicate LabelsOk(rule: HostRule, L: seq<string>)
    requires |L| >= 1
  {
    IsTld(L[|L| - 1]) && forall k :: 0 <= k < |L| - 1 ==> LeadingLabelOk(rule, L[k])
  }

  lemma AllAtomsCons(h: string, R: seq<string>)
    ensures AllAtoms([h] + R) == (IsAtom(h) && AllAtoms(R))
  {
    var L := [h] + R;
    if AllAtoms(L) {
      assert L[0] == h;
      forall k | 0 <= k < |R| ensures IsAtom(R[k]) {
        assert R[k] == L[k + 1];
      }
    }
    if IsAtom(h) && AllAtoms(R) {
      forall k | 0 <= k < |L| ensures IsAtom(L[k]) {
        if k > 0 { assert L[k] == R[k - 1]; }
      }
    }
  }

  lemma LabelsOkCons(rule: HostRule, h: string, R: seq<string>)
    requires |R| >= 1
    ensures LabelsOk(rule, [h] + R) == (LeadingLabelOk(rule, h) && LabelsOk(rule, R))
  {
    var L := [h] + R;
    assert L[|L| - 1] == R[|R| - 1];
    if LabelsOk(rule, L) {
      assert L[0] == h;
      forall k | 0 <= k < |R| - 1 ensures LeadingLabelOk(rule, R[k]) {
        assert R[k] == L[k + 1];
      }
    }
    if LeadingLabelOk(rule, h) && LabelsOk(rule, R) {
      forall k | 0 <= k < |L| - 1 ensures LeadingLabelOk(rule, L[k]) {
        if k > 0 { assert L[k] == R[k - 1]; }
      }
    }
  }

  /** Every dot-separated piece of `x` is an atom. */
  ghost predicate LocalShape(x: string) {
    AllAtoms(SplitAll(x))
  }

  /** `h` has at least two labels: leading labels, then a final label of 2 to 63 letters. */
  ghost predicate HostShape(rule: HostRule, h: string) {
    |SplitAll(h)| >= 2 && LabelsOk(rule, SplitAll(h))
  }

  /** Some '@' of `s` separates a local part from an email host. */
  ghost predicate EmailShape(s: string) {
    exists i :: 0 <= i < |s| && s[i] == '@' && LocalShape(s[..i]) && HostShape(EmailHost, s[i + 1..])
  }

  lemma DotFreeSplit(x: string)
    requires forall i :: 0 <= i < |x| ==> x[i] != '.'
    ensures SplitAll(x) == [x]
  {
  }

  /** Cutting at the first dot: the labels of `x` are its dot-free head followed by the labels after the dot. */
  lemma SplitAtFirstDot(x: string, dot: int)
    requires dot == IndexOf(x, '.') && dot >= 0
    ensures SplitAll(x) == [x[..dot]] + SplitAll(x[dot + 1..])
  {
    assert x == x[..dot] + "." + x[dot + 1..];
    SplitAllConcat(x[..dot], x[dot + 1..]);
    DotFreeSplit(x[..dot]);
  }

  /** The local-part scanner accepts exactly the strings whose pieces are all atoms. */
  lemma {:induction false} ScanLocalShape(x: string)
    ensures ScanLocal(x) == LocalShape(x)
    decreases |x|
  {
    var dot := IndexOf(x, '.');
    if dot < 0 {
      DotFreeSplit(x);
      assert [x][0] == x;
    } else {
      SplitAtFirstDot(x, dot);
      ScanLocalShape(x[dot + 1..]);
      AllAtomsCons(x[..dot], SplitAll(x[dot + 1..]));
    }
  }

  /** The host-tail scanner accepts exactly the strings whose labels satisfy `LabelsOk`. */
  lemma {:induction false} ScanHostTailShape(rule: HostRule, t: string)
    ensures ScanHostTail(rule, t) == LabelsOk(rule, SplitAll(t))
    decreases |t|
  {
    var dot := IndexOf(t, '.');
    if dot < 0 {
      DotFreeSplit(t);
    } else {
      SplitAtFirstDot(t, dot);
      ScanHostTailShape(rule, t[dot + 1..]);
      LabelsOkCons(rule, t[..dot], SplitAll(t[dot + 1..]));
    }
  }

  /**
   * DOMAIN_PATTERN and the host part of EMAIL_PATTERN, label by label: at least one dot; the last label is
   * 2 to 63 ASCII letters; every earlier label satisfies the rule's leading-label class.
   */
  lemma ScanHostShape(rule: HostRule, h: string)
    ensures ScanHost(rule, h) == HostShape(rule, h)
  {
    var dot := IndexOf(h, '.');
    if dot < 0 {
      DotFreeSplit(h);
    } else {
      SplitAtFirstDot(h, dot);
      ScanHostTailShape(rule, h[dot + 1..]);
      LabelsOkCons(rule, h[..dot], SplitAll(h[dot + 1..]));
    }
  }

  /** An '@' at `at`, before or after the dot at `dot`, lies in the head or in the rest. */
  lemma AtInPieces(x: string, dot: int, at: int)
    requires 0 <= dot < |x| && x[dot] == '.' && 0 <= at < |x| && x[at] == '@'
    ensures at < dot ==> x[..dot][at] == '@'
    ensures at > dot ==> x[dot + 1..][at - dot - 1] == '@'
  {
  }

  /** No scanner accepts an '@'. */
  lemma {:induction false} ScanLocalNoAt(x: string)
    ensures ScanLocal(x) ==> forall i :: 0 <= i < |x| ==> x[i] != '@'
    decreases |x|
  {
    var dot := IndexOf(x, '.');
    if dot >= 0 {
      ScanLocalNoAt(x[dot + 1..]);
      forall i | 0 <= i < |x| && x[i] == '@' ensures !ScanLocal(x) {
        AtInPieces(x, dot, i);
      }
    }
  }

  lemma {:induction false} ScanHostTailNoAt(rule: HostRule, t: string)
    ensures ScanHostTail(rule, t) ==> forall i :: 0 <= i < |t| ==> t[i] != '@'
    decreases |t|
  {
    var dot := IndexOf(t, '.');
    if dot >= 0 {
      ScanHostTailNoAt(rule, t[dot + 1..]);
      forall i | 0 <= i < |t| && t[i] == '@' ensures !ScanHostTail(rule, t) {
        AtInPieces(t, dot, i);
      }
    }
  }

  lemma ScanHostNoAt(rule: HostRule, h: string)
    ensures ScanHost(rule, h) ==> forall i :: 0 <= i < |h| ==> h[i] != '@'
  {
    var dot := IndexOf(h, '.');
    if dot >= 0 {
      ScanHostTailNoAt(rule, h[dot + 1..]);
      forall i | 0 <= i < |h| && h[i] == '@' ensures !ScanHost(rule, h) {
        AtInPieces(h, dot, i);
      }
    }
  }

  /** An '@' preceded by a valid local part is the first '@'. */
  lemma FirstAtAfterLocal(s: string, i: int)
    requires 0 <= i < |s| && s[i] == '@' && LocalShape(s[..i])
    ensures IndexOf(s, '@') == i
  {
    ScanLocalShape(s[..i]);
    ScanLocalNoAt(s[..i]);
    assert forall j :: 0 <= j < i ==> s[j] == s[..i][j];
  }

  lemma PatternHasShape(s: string)
    requires MatchesEmailPattern(s)
    ensures EmailShape(s)
  {
    var at := IndexOf(s, '@');
    ScanLocalShape(s[..at]);
    ScanHostShape(EmailHost, s[at + 1..]);
    assert 0 <= at < |s| && s[at] == '@' && LocalShape(s[..at]) && HostShape(EmailHost, s[at + 1..]);
  }

  lemma ShapeMatchesPattern(s: string)
    requires EmailShape(s)
    ensures MatchesEmailPattern(s)
  {
    var i :| 0 <= i < |s| && s[i] == '@' && LocalShape(s[..i]) && HostShape(EmailHost, s[i + 1..]);
    FirstAtAfterLocal(s, i);
    ScanLocalShape(s[..i]);
    ScanHostShape(EmailHost, s[i + 1..]);
  }

  /** EMAIL_PATTERN accepts exactly the strings with an '@' between a local part and an email host. */
  lemma EmailPatternShape(s: string)
    ensures MatchesEmailPattern(s) == EmailShape(s)
  {
    if MatchesEmailPattern(s) {
      PatternHasShape(s);
    }
    if EmailShape(s) {
      ShapeMatchesPattern(s);
    }
  }

  // ---------------------------------------------------------------- the public API

  /** The classification `classify` returns. */
  datatype InputType = Email | Domain | Invalid

  /** `isStringBlank`: null, or nothing left after `trim`, i.e. every char at or below U+0020. */
  predicate IsStringBlank(str: Option<string>)
    ensures IsStringBlank(str) <==> str.None? || forall i :: 0 <= i < |str.value| ==> IsTrimSpace(str.value[i])
  {
    str.None? || Trim(str.value) == []
  }

  /** `isEmail`. */
  predicate IsEmail(input: Option<string>) {
    !IsStringBlank(input) && MatchesEmailPattern(input.value)
  }

  /** `isDomain`. */
  predicate IsDomain(input: Option<string>) {
    !IsStringBlank(input) && MatchesDomainPattern(input.value)
  }

  /** `classify`: blank input is invalid; the email pattern is tried before the domain pattern. */
  function Classify(input: Option<string>): (r: InputType)
  {
    if IsStringBlank(input) then Invalid
    else if MatchesEmailPattern(input.value) then Email
    else if MatchesDomainPattern(input.value) then Domain
    else Invalid
  }

  /** `getDomainFromEmail`: the text after the last '@' of a valid email, and nothing otherwise. */
  function GetDomainFromEmail(emailAddress: Option<string>): (r: Option<string>)
    ensures r.Some? <==> IsEmail(emailAddress)
  {
    if !IsEmail(emailAddress) then None else Some(AfterLastAt(emailAddress.value))
  }

  /**
   * `s.substring(s.lastIndexOf('@') + 1)`: everything after the last '@', or all of `s` when it has none.
   * The result is a suffix of `s` without an '@', preceded in `s` by an '@' unless it is all of `s`.
   */
  function AfterLastAt(s: string): (r: string)
    ensures |r| <= |s| && r == s[|s| - |r|..]
    ensures forall i :: 0 <= i < |r| ==> r[i] != '@'
    ensures |r| < |s| ==> s[|s| - |r| - 1] == '@'
  {
    var atIndex := LastIndexOf(s, '@', |s| - 1);
    s[atIndex + 1..]
  }

  /** Blank input is never an email or a domain, and classifies as invalid. */
  lemma BlankIsInvalid(input: Option<string>)
    requires IsStringBlank(input)
    ensures Classify(input) == Invalid && !IsEmail(input) && !IsDomain(input)
  {
  }

  /** No string is both an email and a domain: an email holds an '@', which no domain does. */
  lemma EmailIsNotDomain(s: string)
    requires MatchesEmailPattern(s)
    ensures !MatchesDomainPattern(s)
  {
    ScanHostNoAt(DomainHost, s);
    var at := IndexOf(s, '@');
    assert s[at] == '@';
  }

  /** `classify` agrees with `isEmail` and `isDomain`: EMAIL iff an email, DOMAIN iff a domain, INVALID iff neither. */
  lemma ClassifyAgrees(input: Option<string>)
    ensures Classify(input) == Email <==> IsEmail(input)
    ensures Classify(input) == Domain <==> IsDomain(input)
    ensures Classify(input) == Invalid <==> !IsEmail(input) && !IsDomain(input)
  {
    if IsEmail(input) {
      EmailIsNotDomain(input.value);
    }
  }

  /** When the only '@' from `at` on is at `at`, `lastIndexOf('@')` finds it, and the string is cut there. */
  lemma LastAtIs(s: string, at: int)
    requires 0 <= at < |s| && s[at] == '@'
    requires forall i :: at < i < |s| ==> s[i] != '@'
    ensures LastIndexOf(s, '@', |s| - 1) == at
    ensures AfterLastAt(s) == s[at + 1..]
    ensures s == s[..at] + "@" + s[at + 1..]
  {
    assert LastIndexOf(s, '@', |s| - 1) == at;
    assert s == s[..at] + [s[at]] + s[at + 1..];
  }

  /** Every leading label is non-empty and starts with a host char. */
  lemma LeadingLabelStarts(rule: HostRule, l: string)
    requires LeadingLabelOk(rule, l)
    ensures l != [] && IsHostChar(l[0])
  {
  }

  /** Whatever the host-tail scanner accepts ends with an ASCII letter, the end of its final label. */
  lemma {:induction false} ScanHostTailEnds(rule: HostRule, t: string)
    ensures ScanHostTail(rule, t) ==> t != [] && IsAsciiLetter(t[|t| - 1])
    decreases |t|
  {
    var dot := IndexOf(t, '.');
    if dot >= 0 {
      var rest := t[dot + 1..];
      ScanHostTailEnds(rule, rest);
      if rest != [] {
        assert t[|t| - 1] == rest[|rest| - 1];
      }
    }
  }

  /**
   * A host either pattern accepts starts with a host char and ends with a letter, so `trim` leaves it alone
   * and normalising it only lower-cases it, keeping the final letter.
   */
  lemma ScanHostIsTrimmed(rule: HostRule, h: string)
    requires ScanHost(rule, h)
    ensures h != [] && IsHostChar(h[0]) && IsAsciiLetter(h[|h| - 1])
    ensures Normalize(h) == Lower(h) && IsAsciiLetter(Normalize(h)[|h| - 1])
  {
    ScanHostEnds(rule, h);
    TrimOfTrimmed(h);
  }

  /** A host either pattern accepts starts with a host char and ends with a letter. */
  lemma ScanHostEnds(rule: HostRule, h: string)
    requires ScanHost(rule, h)
    ensures h != [] && IsHostChar(h[0]) && IsAsciiLetter(h[|h| - 1])
  {
    var dot := IndexOf(h, '.');
    LeadingLabelStarts(rule, h[..dot]);
    assert h[0] == h[..dot][0];
    ScanHostTailEnds(rule, h[dot + 1..]);
    assert h[|h| - 1] == h[dot + 1..][|h| - dot - 2];
  }

  /** A string the email pattern accepts has a single '@'; what follows it is the extracted domain, an email host. */
  lemma OnlyAt(s: string, k: int)
    requires MatchesEmailPattern(s) && 0 <= k < |s| && s[k] == '@'
    ensures k == IndexOf(s, '@')
    ensures AfterLastAt(s) == s[k + 1..] && ScanHost(EmailHost, s[k + 1..])
    ensures s == s[..k] + "@" + s[k + 1..]
  {
    var at := IndexOf(s, '@');
    var host := s[at + 1..];
    ScanHostNoAt(EmailHost, host);
    forall i | at < i < |s| ensures s[i] != '@' {
      assert s[i] == host[i - at - 1];
    }
    assert at == k;
    LastAtIs(s, at);
  }

  /**
   * The domain of a valid email: it contains no '@', it is a valid email host, and the address is
   * the text before it, '@' and the domain.
   */
  lemma DomainFromEmailShape(emailAddress: Option<string>)
    requires IsEmail(emailAddress)
    ensures var d := GetDomainFromEmail(emailAddress).value;
      && (forall i :: 0 <= i < |d| ==> d[i] != '@')
      && HostShape(EmailHost, d)
      && emailAddress.value == emailAddress.value[..|emailAddress.value| - |d| - 1] + "@" + d
  {
    var s := emailAddress.value;
    var at := IndexOf(s, '@');
    OnlyAt(s, at);
    ScanHostNoAt(EmailHost, s[at + 1..]);
    ScanHostShape(EmailHost, s[at + 1..]);
  }

  /** When `local@d` is an email, its domain is exactly `d`, an email host. */
  lemma EmailDomainIs(local: string, d: string)
    requires IsEmail(Some(local + "@" + d))
    ensures GetDomainFromEmail(Some(local + "@" + d)) == Some(d)
    ensures ScanHost(EmailHost, d)
  {
    var s := local + "@" + d;
    assert s[|local|] == '@' && s[|local| + 1..] == d;
    OnlyAt(s, |local|);
  }

  /** The scanner rejects the host "zliio.\U{1F914}\U{FE0F}" at its final label, an emoji and a variation selector. */
  lemma EmojiHostFails()
    ensures !ScanHost(EmailHost, "zliio.\U{1F914}\U{FE0F}")
  {
    var host := "zliio.\U{1F914}\U{FE0F}";
    assert IndexOf(host, '.') == 5;
    assert host[6..] == "\U{1F914}\U{FE0F}";
    assert !IsAsciiLetter("\U{1F914}\U{FE0F}"[0]);
    assert !ScanHostTail(EmailHost, "\U{1F914}\U{FE0F}");
  }

  /** The scanner rejects "dsa@zliio.\U{1F914}\U{FE0F}". */
  lemma EmojiTldFailsPattern()
    ensures !MatchesEmailPattern("dsa@zliio.\U{1F914}\U{FE0F}")
  {
    var s := "dsa@zliio.\U{1F914}\U{FE0F}";
    assert IndexOf(s, '@') == 3;
    assert s[4..] == "zliio.\U{1F914}\U{FE0F}";
    EmojiHostFails();
  }

  /** "dsa@zliio.\U{1F914}\U{FE0F}" is not an email, so no domain is extracted from it and it is invalid. */
  lemma EmojiTldIsNotEmail()
    ensures !IsEmail(Some("dsa@zliio.\U{1F914}\U{FE0F}"))
    ensures GetDomainFromEmail(Some("dsa@zliio.\U{1F914}\U{FE0F}")) == None
  {
    EmojiTldFailsPattern();
  }

  /** Input without an '@', a bare domain such as "gmail.com" included, is never an email, so no domain is extracted. */
  lemma NoAtIsNotEmail(s: string)
    requires '@' !in s
    ensures !IsEmail(Some(s)) && GetDomainFromEmail(Some(s)) == None
  {
    assert IndexOf(s, '@') == -1;
  }
}
