# Disposable-email checker: a Dafny model

This project models the core of a Java library that decides whether an email address or a domain
belongs to a disposable-email provider. The model covers these parts:

- **`DomainSuffixTrie`**: a trie over the labels of a domain, keyed from the top-level label inward.
  Registering `example.com` makes `example.com` and every subdomain of it match.
- **`BloomFilter`**: a fixed-size bit array with double hashing over `String.hashCode`, all in Java
  `int` arithmetic.
- **`SuffixTrieDisposable`** and **`BloomFilterDisposable`**: checkers that load a set of domains into
  one of those structures. They answer `validate`, `validateEmail` and `validateDomain`.
- **`DisposableChecker`**: the email and domain regular expressions, classification, and extracting
  the domain from an email.
- **`DisposableDomainLoader`**: the `empty`, `of` and `fromFile` factories.
- **`DomainsLibraryManager`**: the legacy lookup over a disposable list plus block and allow overlays.

The model has one Dafny module per Java type, and two more for the Java library behaviour it relies on:

- `JavaInt`: 32-bit wrap-around, truncating `%` and `/`, `Math.abs`, `^`.
- `JavaString`: `trim`, ASCII `toLowerCase`, `indexOf`, `lastIndexOf`, `split("\\.")`, `hashCode` over UTF-16.

Java `null` is `None` of an `Option`. A thrown exception is the `Failure` of a `Result` or the `Fail` of
an `Outcome`. Objects whose fields change are classes:

- the trie, whose root and counter change;
- the Bloom filter, over an `array<bool>`;
- the manager, whose three sets are fields.

Each trie node is owned by exactly one parent's children map, so nodes are values of a datatype.
`add` and `removeRecursively` become recursive functions on those values. `matches` and `contains`
are methods with the source's `lastIndexOf` loop.

Where the code and its own documentation disagree, the model follows the code:

- The `Disposable` interface documents `validate` and `validateEmail` as returning false for a
  disposable input (disposable-core/src/main/java/com/zliio/disposable/Disposable.java:17 and :28).
  The trie and Bloom checkers return `true` for a disposable input, and so does the model.
- The same interface documents `validate` as accepting a domain or an email
  (disposable-core/src/main/java/com/zliio/disposable/Disposable.java:14-16). The checkers' `validate`
  accepts only emails, so a bare domain such as `gmail.com` is answered `false` (`Checker.NoAtIsNotEmail`).
- `BloomFilterDisposable` warns that an empty domain set makes every check return false
  (disposable-core/src/main/java/com/zliio/disposable/core/BloomFilterDisposable.java:72). In fact,
  building a filter for zero insertions throws `IllegalArgumentException`, so construction fails
  (`BloomDisposable.EmptySetIsRejected`).
- `DomainSuffixTrie` documents `add` and `remove` as throwing IllegalArgumentException for a null or blank
  domain (disposable-core/src/main/java/com/zliio/disposable/DomainSuffixTrie.java:69 and :173). The code
  at :228-236 throws NullPointerException for null and IllegalArgumentException for the empty string, and
  accepts a blank domain such as `"  "`: only a domain whose split has no labels is rejected
  (`SuffixTrie.ValidateAndSplitDomain`).

Other behaviour of the code that the model keeps:

- Block and allow overlays exist only in the legacy `DomainsLibraryManager`. The trie and Bloom checkers
  have none.
- `SuffixTrieDisposable` construction aborts on the first entry that is nothing but dots, such as `".."`.
- The trie registers an entry with a trailing dot (`"com."`) under `split`'s labels, `["com"]`.
  `contains("com.")` walks the labels `["com", ""]`, so the entry is not contained.
- `containDomain` lower-cases its argument twice; the second time has no effect.
- `BloomFilter`'s probability check `fpp <= 0.0 || fpp >= 1.0` lets NaN through (`Bloom.NaNProbabilityPasses`).
  A probability is therefore a `Double` with a NaN case.

## Model

Source paths are relative to the repository root.

| member | source | states |
|---|---|---|
| JavaInt.Wrap32 | disposable-core/src/main/java/com/zliio/disposable/BloomFilter.java:383 | the result is the only `int` congruent to the input modulo 2^32, and is the input itself when that already fits |
| JavaInt.JavaRem | disposable-core/src/main/java/com/zliio/disposable/BloomFilter.java:385 | Java's `%` by a positive divisor lies in `[0, b)` for a non-negative dividend and in `(-b, 0]` for a negative one |
| JavaInt.JavaDiv | disposable-core/src/main/java/com/zliio/disposable/BloomFilter.java:447 | Java's `/` and `%` recombine: `q * b + a % b == a` |
| JavaInt.Abs32 | disposable-core/src/main/java/com/zliio/disposable/BloomFilter.java:385 | `Math.abs` is non-negative and equal to `x` or `-x` for every `int` but `Integer.MIN_VALUE`, which it returns unchanged |
| JavaString.Trim | disposable-core/src/main/java/com/zliio/disposable/DisposableChecker.java:133 | `trim` yields the empty string exactly when every char is at or below U+0020; otherwise neither end of the result is such a char |
| JavaString.TrimOfTrimmed | disposable-core/src/main/java/com/zliio/disposable/DisposableChecker.java:133 | a string with no trim space at either end is its own trim |
| JavaString.TrimPadded | disposable-core/src/main/java/com/zliio/disposable/DisposableDomainLoader.java:91 | one leading or trailing space is all `trim` removes from such a string |
| JavaString.LowerIdempotent | disposable-core/src/main/java/com/zliio/disposable/DomainSuffixTrie.java:232 | lower-casing twice is lower-casing once |
| JavaString.LowerConcat | disposable-core/src/main/java/com/zliio/disposable/DomainSuffixTrie.java:232 | lower-casing distributes over concatenation |
| JavaString.LowerChars | disposable-core/src/main/java/com/zliio/disposable/DomainSuffixTrie.java:232 | `Lower`: each upper-case ASCII letter becomes its lower-case letter, every other char is kept, and no upper-case letter is left |
| JavaString.Normalize | disposable-core/src/main/java/com/zliio/disposable/core/SuffixTrieDisposable.java:80-82 | `trim().toLowerCase()` is empty exactly when the input is blank |
| JavaString.NormalizeIsNormal | disposable-core/src/main/java/com/zliio/disposable/core/BloomFilterDisposable.java:77-80 | a normalised domain is its own trim and its own lower case, so normalising is idempotent |
| JavaString.NormalizeFixes | disposable-core/src/main/java/com/zliio/disposable/DisposableDomainLoader.java:89-94 | a lower-case string without surrounding spaces is its own normalisation |
| JavaString.IndexOf | disposable-core/src/main/java/com/zliio/disposable/DisposableChecker.java:22-26 | the result is -1 or an index holding `c`, and no earlier index holds `c` |
| JavaString.LastIndexOf | disposable-core/src/main/java/com/zliio/disposable/DomainSuffixTrie.java:113 | the result is -1 or an index at or before `from` holding `c`, and no index between it and `from` holds `c` |
| JavaString.LastIndexOfPrefix | disposable-core/src/main/java/com/zliio/disposable/DomainSuffixTrie.java:113 | searching backwards from inside a prefix finds what searching the whole string finds |
| JavaString.SplitAll | disposable-core/src/main/java/com/zliio/disposable/DomainSuffixTrie.java:107-125 | the labels the `lastIndexOf` walk cuts off: at least one, none containing a dot |
| JavaString.JoinSplitAll | disposable-core/src/main/java/com/zliio/disposable/DomainSuffixTrie.java:107-125 | joining the walked labels with dots gives the domain back |
| JavaString.SplitAllJoin | disposable-core/src/main/java/com/zliio/disposable/DomainSuffixTrie.java:107-125 | walking dot-free labels joined with dots gives the labels back |
| JavaString.SplitAllConcat | disposable-core/src/main/java/com/zliio/disposable/DomainSuffixTrie.java:107-125 | the labels of `x.y` are the labels of `x` followed by those of `y` |
| JavaString.AllDotsSplit | disposable-core/src/main/java/com/zliio/disposable/DomainSuffixTrie.java:233-236 | a string is all dots exactly when each of its labels is empty |
| JavaString.DropTrailingEmpty | disposable-core/src/main/java/com/zliio/disposable/DomainSuffixTrie.java:233 | the result is the longest prefix not ending in an empty string; only empty strings were dropped |
| JavaString.JavaSplit | disposable-core/src/main/java/com/zliio/disposable/DomainSuffixTrie.java:233 | `split("\\.")`: no piece holds a dot; a string without a dot is its only piece; otherwise the pieces are the walked labels with only empty ones dropped from the end, and a non-empty string does not end with an empty piece |
| JavaString.SplitAllTrailingDot | disposable-core/src/main/java/com/zliio/disposable/DomainSuffixTrie.java:107-125 | walking a string that ends with a dot ends with an empty label |
| JavaString.JavaSplitAgrees | disposable-core/src/main/java/com/zliio/disposable/DomainSuffixTrie.java:113-114 | on a domain not ending with a dot, `split("\\.")` in `add` and the `lastIndexOf` walk of `matches` give the same labels |
| JavaString.TrailingDotDisagrees | disposable-core/src/main/java/com/zliio/disposable/DomainSuffixTrie.java:233 | on `"com."` they differ: `["com"]` against `["com", ""]` |
| JavaString.JavaSplitNoLabels | disposable-core/src/main/java/com/zliio/disposable/DomainSuffixTrie.java:233-236 | a non-empty string yields no labels exactly when it is all dots, and never yields the single empty label |
| JavaString.Utf16UnitsDecode | disposable-core/src/main/java/com/zliio/disposable/BloomFilter.java:374 | a char's UTF-16 code units are 16-bit, a surrogate pair above U+FFFF, and they decode back to the char |
| JavaString.Utf16 | disposable-core/src/main/java/com/zliio/disposable/BloomFilter.java:374 | a string has at least one and at most two UTF-16 code units per char, each a 16-bit value |
| JavaString.HashUnitsIsPoly | disposable-core/src/main/java/com/zliio/disposable/BloomFilter.java:374 | the hash loop `HashUnits`, wrapping at every step, gives the polynomial hash reduced to 32 bits |
| JavaString.HashCodeIsPoly | disposable-core/src/main/java/com/zliio/disposable/BloomFilter.java:374 | `hashCode` (`HashCode`) is the polynomial over the string's UTF-16 units, reduced to an `int` |
| JavaString.HashUnitsSnoc | disposable-core/src/main/java/com/zliio/disposable/BloomFilter.java:374 | an unfolding step of the hash loop: one more code unit `u` is one more step `31 * h + u`, in `int` arithmetic |
| JavaString.HashCodeSnoc | disposable-core/src/main/java/com/zliio/disposable/BloomFilter.java:374 | an unfolding step of `hashCode`: appending a char appends its code units, one or a surrogate pair, to those the hash runs over |
| Checker.ScanLocalShape | disposable-core/src/main/java/com/zliio/disposable/DisposableChecker.java:23 | the local-part scanner accepts exactly the strings whose dot-separated pieces are all non-empty runs of the atom class |
| Checker.IsStringBlank | disposable-core/src/main/java/com/zliio/disposable/DisposableChecker.java:131-134 | `isStringBlank` holds exactly for null and for strings whose every char is at or below U+0020 |
| Checker.ScanHostShape | disposable-core/src/main/java/com/zliio/disposable/DisposableChecker.java:22-33 | the host scanner of either pattern, and so DOMAIN_PATTERN (`MatchesDomainPattern`), accepts exactly: at least two labels, the last of 2 to 63 ASCII letters, each earlier one a label of that pattern's class |
| Checker.EmailPatternShape | disposable-core/src/main/java/com/zliio/disposable/DisposableChecker.java:22-26 | EMAIL_PATTERN (`MatchesEmailPattern`) accepts exactly the strings with an '@' between a local part and an email host |
| Checker.ScanHostNoAt | disposable-core/src/main/java/com/zliio/disposable/DisposableChecker.java:22-33 | no accepted host contains an '@' |
| Checker.EmailIsNotDomain | disposable-core/src/main/java/com/zliio/disposable/DisposableChecker.java:22-33 | no string matches both patterns |
| Checker.BlankIsInvalid | disposable-core/src/main/java/com/zliio/disposable/DisposableChecker.java:66-70 | blank input classifies as INVALID and is neither an email nor a domain |
| Checker.ClassifyAgrees | disposable-core/src/main/java/com/zliio/disposable/DisposableChecker.java:66-103 | `classify` answers EMAIL iff `isEmail`, DOMAIN iff `isDomain`, INVALID iff neither; this is what specifies `Classify`, `IsEmail` and `IsDomain` |
| Checker.GetDomainFromEmail | disposable-core/src/main/java/com/zliio/disposable/DisposableChecker.java:115-122 | a domain is returned exactly for a valid email |
| Checker.AfterLastAt | disposable-core/src/main/java/com/zliio/disposable/DisposableChecker.java:120-121 | the substring after the last '@' is a suffix holding no '@', and an '@' precedes it unless it is the whole string |
| Checker.LastAtIs | disposable-core/src/main/java/com/zliio/disposable/DisposableChecker.java:120-121 | when no '@' follows position `at`, `lastIndexOf('@')` finds `at` and the substring after it is the rest |
| Checker.OnlyAt | disposable-core/src/main/java/com/zliio/disposable/DisposableChecker.java:115-122 | a valid email holds one '@'; what follows it is the extracted domain and an email host |
| Checker.DomainFromEmailShape | disposable-core/src/main/java/com/zliio/disposable/DisposableChecker.java:115-122 | the extracted domain holds no '@', satisfies the host rule, and the address is the text before it, '@' and the domain |
| Checker.EmailDomainIs | disposable-core/src/main/java/com/zliio/disposable/DisposableChecker.java:115-122 | the domain extracted from a valid `local@d` is exactly `d` |
| Checker.ScanHostIsTrimmed | disposable-core/src/main/java/com/zliio/disposable/DisposableChecker.java:22-33 | an accepted host starts with a host char and ends with a letter, so normalising it only lower-cases it |
| Checker.EmojiTldIsNotEmail | disposable-core/src/main/java/com/zliio/disposable/DisposableChecker.java:22-26 | `dsa@zliio.` followed by U+1F914 U+FE0F is not an email, and no domain is extracted from it |
| Checker.NoAtIsNotEmail | disposable-core/src/main/java/com/zliio/disposable/DisposableChecker.java:85-90 | input without an '@', a bare domain included, is not an email and yields no domain |
| SuffixTrie.Insert | disposable-core/src/main/java/com/zliio/disposable/DomainSuffixTrie.java:75-80 | the walk of `add` leaves `labels` registered and changes the domain-end flag of the node itself only for no labels |
| SuffixTrie.RemoveRecursively | disposable-core/src/main/java/com/zliio/disposable/DomainSuffixTrie.java:195-218 | `removeRecursively` leaves `labels` unregistered and changes the domain-end flag of the node itself only for no labels |
| SuffixTrie.RemoveTracking | disposable-core/src/main/java/com/zliio/disposable/DomainSuffixTrie.java:195-218 | the corrected recursion leaves `labels` unregistered and raises the prune signal only when it cleared a domain end |
| SuffixTrie.InsertRegistered | disposable-core/src/main/java/com/zliio/disposable/DomainSuffixTrie.java:75-80 | after the walk of `add`, the registered domains are the old ones plus exactly `labels` |
| SuffixTrie.InsertReportsNew | disposable-core/src/main/java/com/zliio/disposable/DomainSuffixTrie.java:79-84 | the final node was newly marked exactly when `labels` was not registered |
| SuffixTrie.InsertLive | disposable-core/src/main/java/com/zliio/disposable/DomainSuffixTrie.java:75-80 | insertion keeps every non-root node ending a domain or having a child |
| SuffixTrie.PruneMeansBare | disposable-core/src/main/java/com/zliio/disposable/DomainSuffixTrie.java:200-215 | a node whose parent is told to prune it has no domain end and no children |
| SuffixTrie.RemoveRegistered | disposable-core/src/main/java/com/zliio/disposable/DomainSuffixTrie.java:195-218 | after `removeRecursively` the registered domains are the old ones less exactly `labels` |
| SuffixTrie.PruneMeansFound | disposable-core/src/main/java/com/zliio/disposable/DomainSuffixTrie.java:195-218 | the prune signal is raised only when `labels` was registered |
| SuffixTrie.RemoveLive | disposable-core/src/main/java/com/zliio/disposable/DomainSuffixTrie.java:211-215 | removal and pruning keep every non-root node ending a domain or having a child |
| SuffixTrie.RemoveSignalAtRoot | disposable-core/src/main/java/com/zliio/disposable/DomainSuffixTrie.java:179 | at the root, the prune signal is raised exactly when `labels` was the only registered domain |
| SuffixTrie.UnregisteredRemoveIsIdentity | disposable-core/src/main/java/com/zliio/disposable/DomainSuffixTrie.java:196-208 | removing an unregistered domain leaves the trie unchanged and raises no signal |
| SuffixTrie.ValidateAndSplitDomain | disposable-core/src/main/java/com/zliio/disposable/DomainSuffixTrie.java:227-243 | null is a NullPointerException; success exactly when some char is not a dot; otherwise an IllegalArgumentException; the labels are those of `split` on the lower-cased domain, never none, and the top-level one is never empty |
| SuffixTrie.ContainsImpliesMatches | disposable-core/src/main/java/com/zliio/disposable/DomainSuffixTrie.java:97-166 | a domain `contains` accepts also matches |
| SuffixTrie.SubdomainMatches | disposable-core/src/main/java/com/zliio/disposable/DomainSuffixTrie.java:97-130 | if `d` matches then `x.d` matches, for every `x` |
| SuffixTrie.LookupsIgnoreCase | disposable-core/src/main/java/com/zliio/disposable/DomainSuffixTrie.java:101 | `matches` and `contains` give the same answer for a domain and its lower case |
| SuffixTrie.NoEdgeNoLongerSuffix | disposable-core/src/main/java/com/zliio/disposable/DomainSuffixTrie.java:116-118 | a missing child edge rules out every longer registered suffix |
| SuffixTrie.WalkStep | disposable-core/src/main/java/com/zliio/disposable/DomainSuffixTrie.java:113-124 | each `lastIndexOf` step cuts off the next label inward, and the rest keeps the remaining labels |
| SuffixTrie.RemovedNotContained | disposable-core/src/main/java/com/zliio/disposable/DomainSuffixTrie.java:139-166 | once the labels `split` gives for a domain are unregistered, `contains` is false for it, also with a trailing dot, because no registered domain has an empty top-level label |
| SuffixTrie.DomainSuffixTrie.constructor | disposable-core/src/main/java/com/zliio/disposable/DomainSuffixTrie.java:50-62 | an empty trie; nothing registered, size 0 |
| SuffixTrie.DomainSuffixTrie.Size | disposable-core/src/main/java/com/zliio/disposable/DomainSuffixTrie.java:220-222 | `size()` is the number of registered domains while the counter is exact, which the corrected removal keeps |
| SuffixTrie.DomainSuffixTrie.Add | disposable-core/src/main/java/com/zliio/disposable/DomainSuffixTrie.java:71-88 | a rejected domain throws and changes nothing; otherwise its labels are registered, the result says whether they were new, and a size equal to the number of domains stays equal |
| SuffixTrie.DomainSuffixTrie.Matches | disposable-core/src/main/java/com/zliio/disposable/DomainSuffixTrie.java:97-130 | true exactly when the input is non-null and non-empty and the domain or one of its parent domains is registered |
| SuffixTrie.DomainSuffixTrie.Contains | disposable-core/src/main/java/com/zliio/disposable/DomainSuffixTrie.java:139-166 | true exactly when the input is non-null and non-empty and its labels are registered |
| SuffixTrie.DomainSuffixTrie.Remove | disposable-core/src/main/java/com/zliio/disposable/DomainSuffixTrie.java:175-187 | as written: the domain is unregistered and no longer contained, but the result and the decrement are true only when it was the last registered domain |
| SuffixTrie.DomainSuffixTrie.RemoveFixed | disposable-core/src/main/java/com/zliio/disposable/DomainSuffixTrie.java:175-187 | corrected: the domain is unregistered and no longer contained, the result is true exactly when it was registered, and size stays the number of domains |
| SuffixTrie.RemoveTrackingCorrect | disposable-core/src/main/java/com/zliio/disposable/DomainSuffixTrie.java:195-218 | the corrected recursion changes the trie as `removeRecursively` does and reports removal exactly when the domain was registered |
| SuffixTrie.RemoveMisreports | disposable-core/src/main/java/com/zliio/disposable/DomainSuffixTrie.java:179-183 | with another domain still registered, `remove` unregisters the domain yet reports false |
| SuffixTrie.RemoveScenario | disposable-core/src/main/java/com/zliio/disposable/DomainSuffixTrie.java:175-187 | after adding `a.com` and `b.com`, removing `a.com` unregisters it but answers false and leaves the size at 2 |
| SuffixTrie.SuffixTreeRegisters | disposable-core/src/test/java/com/zliio/disposable/SuffixTreeTest.java:13-14 | `itsc.cc` and `google.ccm` are registered as two labels each |
| SuffixTrie.SuffixTreeRejectsLookalike | disposable-core/src/test/java/com/zliio/disposable/SuffixTreeTest.java:16 | `a-itsc.cc` does not match: only whole labels count |
| SuffixTrie.SuffixTreeMatchesSubdomain | disposable-core/src/test/java/com/zliio/disposable/SuffixTreeTest.java:17 | `a.itsc.cc` matches |
| SuffixTrie.SuffixTreeMatchesSubdomains | disposable-core/src/test/java/com/zliio/disposable/SuffixTreeTest.java:18 | `a.a.itsc.cc` matches |
| SuffixTrie.SuffixTreeMatchesRegistered | disposable-core/src/test/java/com/zliio/disposable/SuffixTreeTest.java:19 | `google.ccm` matches |
| Bloom.ForceOdd | disposable-core/src/main/java/com/zliio/disposable/BloomFilter.java:377-380 | the second hash is odd, and is `h2` or `h2 + 1` |
| Bloom.SecondHash | disposable-core/src/main/java/com/zliio/disposable/BloomFilter.java:375-380 | the second hash `h1 ^ HASH_SEED`, made odd, is odd |
| Bloom.IndexAt | disposable-core/src/main/java/com/zliio/disposable/BloomFilter.java:382-386 | each double-hashing index lies inside the bit array |
| Bloom.Hashes | disposable-core/src/main/java/com/zliio/disposable/BloomFilter.java:370-389 | exactly `numHashes` indices, all inside the bit array |
| Bloom.ComputeHashes | disposable-core/src/main/java/com/zliio/disposable/BloomFilter.java:370-389 | the array holds the double-hashing indices of the item |
| Bloom.SetBits | disposable-core/src/main/java/com/zliio/disposable/BloomFilter.java:121-123 | a bit is set afterwards exactly when it was set before or is one of the indices |
| Bloom.SetBitsInPlace | disposable-core/src/main/java/com/zliio/disposable/BloomFilter.java:121-123 | the loop over the indices sets exactly those bits |
| Bloom.ClearedBitsOfNothing | disposable-core/src/main/java/com/zliio/disposable/BloomFilter.java:96 | all-clear bits are exactly the bits of no item |
| Bloom.HashedByAdd | disposable-core/src/main/java/com/zliio/disposable/BloomFilter.java:115-125 | an index is hashed to by some item of `names + {x}` exactly when it is by some item of `names` or by `x` |
| Bloom.BitsOfAdd | disposable-core/src/main/java/com/zliio/disposable/BloomFilter.java:115-125 | setting the indices of `x` turns the bits of `names` into the bits of `names + {x}`: each bit set exactly when some item hashes to it |
| Bloom.AddItemsBitsOf | disposable-core/src/main/java/com/zliio/disposable/BloomFilter.java:134-138 | adding `items` in order (`AddItemsBits`) turns the bits of `names` into the bits of `names` plus the items |
| Bloom.AcceptsIffCovered | disposable-core/src/main/java/com/zliio/disposable/BloomFilter.java:152-164 | on the bits of `names`, an item is accepted exactly when each of its indices is hashed to by some item of `names` |
| Bloom.NoFalseNegatives | disposable-core/src/main/java/com/zliio/disposable/BloomFilter.java:134-164 | an item added, or already accepted, is accepted after any further additions |
| Bloom.ClearedAcceptsNothing | disposable-core/src/main/java/com/zliio/disposable/BloomFilter.java:206-209 | with at least one hash function, an all-clear filter accepts nothing |
| Bloom.ValidateParameters | disposable-core/src/main/java/com/zliio/disposable/BloomFilter.java:318-326 | passes exactly for a positive size and a probability that is NaN or strictly between 0 and 1, since NaN fails both comparisons; a failure is an IllegalArgumentException |
| Bloom.NaNProbabilityPasses | disposable-core/src/main/java/com/zliio/disposable/BloomFilter.java:322 | a NaN probability passes validation and 0.0 fails it |
| Bloom.ClampSize | disposable-core/src/main/java/com/zliio/disposable/BloomFilter.java:276 | the size is clamped into `[1, Integer.MAX_VALUE - 8]`, unchanged inside it |
| Bloom.InsertionsGuardAsWritten | disposable-core/src/main/java/com/zliio/disposable/BloomFilter.java:269 | the guard as written fails only with IllegalArgumentException, and for every count from `Integer.MIN_VALUE` up it passes exactly for a positive count and an accepted probability |
| Bloom.FinishConfiguration | disposable-core/src/main/java/com/zliio/disposable/BloomFilter.java:90-104 | a failed guard is passed on; after a passing guard the only failures are IllegalArgumentException for a probability not accepted and IllegalStateException for more than 100 hash functions; a success is the clamped size and `max(1, k)` hash functions |
| Bloom.ConfigureAsWritten | disposable-core/src/main/java/com/zliio/disposable/BloomFilter.java:90-104 | construction as written succeeds exactly when the guard as written passes and there are at most 100 hash functions, with IllegalArgumentException or IllegalStateException otherwise, the clamped size and `max(1, k)` hash functions |
| Bloom.InsertionsGuard | disposable-core/src/main/java/com/zliio/disposable/BloomFilter.java:269 | corrected guard: passes exactly for a positive insertion count and an accepted probability (NaN or strictly between 0 and 1); a failure is an IllegalArgumentException |
| Bloom.Configure | disposable-core/src/main/java/com/zliio/disposable/BloomFilter.java:90-104 | corrected construction: succeeds exactly for a positive count, an accepted probability and at most 100 hash functions, with the exception type of each failure, the clamped size in `[1, MAX_VALUE - 8]` and `max(1, k)` hash functions |
| Bloom.GuardAgreesInIntRange | disposable-core/src/main/java/com/zliio/disposable/BloomFilter.java:268-269 | for every count from `Integer.MIN_VALUE` up, the guard as written behaves as intended |
| Bloom.GuardAcceptsWrappedNegative | disposable-core/src/main/java/com/zliio/disposable/BloomFilter.java:269 | the count -4294967295 wraps to 1: the guard as written and construction as written accept it, the intended ones reject it |
| Bloom.ByteSize | disposable-core/src/main/java/com/zliio/disposable/BloomFilter.java:446-448 | without overflow the bytes cover the bits with less than one byte spare; near `Integer.MAX_VALUE` the result is negative |
| Bloom.NonNullPrefix | disposable-core/src/main/java/com/zliio/disposable/BloomFilter.java:134-138 | the items before the first null, which `addAll` adds before throwing |
| Bloom.BloomFilter.constructor | disposable-core/src/main/java/com/zliio/disposable/BloomFilter.java:90-104 | an empty, valid filter with the given parameters |
| Bloom.BloomFilter.Create | disposable-core/src/main/java/com/zliio/disposable/BloomFilter.java:79-104 | as written: fails exactly as `ConfigureAsWritten`, with its exception; otherwise a fresh, valid, all-clear filter with the configured size and hash count and nothing added |
| Bloom.BloomFilter.Add | disposable-core/src/main/java/com/zliio/disposable/BloomFilter.java:115-125 | null throws and changes nothing; otherwise the item's bits are set, the count rises by one, the item is accepted and nothing accepted before stops being accepted |
| Bloom.BloomFilter.AddAll | disposable-core/src/main/java/com/zliio/disposable/BloomFilter.java:134-138 | adds the items in order up to the first null, which throws; bits, count and added set are those of adding that prefix |
| Bloom.BloomFilter.MightContain | disposable-core/src/main/java/com/zliio/disposable/BloomFilter.java:152-164 | false for null; otherwise true exactly when every bit of the item is set; true for every added item |
| Bloom.BloomFilter.Clear | disposable-core/src/main/java/com/zliio/disposable/BloomFilter.java:206-209 | every bit and the counter are reset, and nothing is accepted |
| BloomDisposable.SetSize | disposable-core/src/main/java/com/zliio/disposable/core/BloomFilterDisposable.java:75 | `Set.size()` is between 0 and `Integer.MAX_VALUE`, and 0 exactly for the empty set |
| BloomDisposable.LoadedStepKept | disposable-core/src/main/java/com/zliio/disposable/core/BloomFilterDisposable.java:77-80 | a kept entry adds its normalised domain and one more added item |
| BloomDisposable.LoadedStepSkipped | disposable-core/src/main/java/com/zliio/disposable/core/BloomFilterDisposable.java:78 | a null or blank entry adds nothing |
| BloomDisposable.EmptySetIsRejected | disposable-core/src/main/java/com/zliio/disposable/core/BloomFilterDisposable.java:71-75 | an empty set sizes the filter for zero insertions, which throws IllegalArgumentException |
| BloomDisposable.SizingAgreesWithGuard | disposable-core/src/main/java/com/zliio/disposable/core/BloomFilterDisposable.java:75 | a set's size always passes the insertion guard as intended |
| BloomDisposable.LoadedEmailWasAdded | disposable-core/src/main/java/com/zliio/disposable/core/BloomFilterDisposable.java:77-102 | when `local@d` is an email and `d` was loaded, the email's normalised domain was added |
| BloomDisposable.BloomFilterDisposable.Create | disposable-core/src/main/java/com/zliio/disposable/core/BloomFilterDisposable.java:68-84 | a null set throws NullPointerException; an unconfigurable filter, the empty set included, fails with its exception; otherwise the filter holds exactly the normalised kept entries, and each bit is set exactly when some loaded domain hashes to it |
| BloomDisposable.BloomFilterDisposable.Load | disposable-core/src/main/java/com/zliio/disposable/core/BloomFilterDisposable.java:77-80 | from an all-clear filter, the loop adds exactly the normalised non-blank entries, one count each, and afterwards each bit is set exactly when some loaded domain hashes to it |
| BloomDisposable.BloomFilterDisposable.IsDisposableDomain | disposable-core/src/main/java/com/zliio/disposable/core/BloomFilterDisposable.java:137-140 | the filter's answer for the normalised domain: true exactly when each of its indices is one that some added domain hashes to; true for a loaded one |
| BloomDisposable.BloomFilterDisposable.Validate | disposable-core/src/main/java/com/zliio/disposable/core/BloomFilterDisposable.java:94-102 | false for blank input and for non-emails; for an email, the filter's answer for its normalised domain, true when that was loaded |
| BloomDisposable.BloomFilterDisposable.ValidateEmail | disposable-core/src/main/java/com/zliio/disposable/core/BloomFilterDisposable.java:111-114 | the same answers as `validate` |
| BloomDisposable.BloomFilterDisposable.ValidateDomain | disposable-core/src/main/java/com/zliio/disposable/core/BloomFilterDisposable.java:123-128 | false for non-domains; otherwise the filter's exact-key answer, true when loaded |
| TrieDisposable.EntrySkipped | disposable-core/src/main/java/com/zliio/disposable/core/SuffixTrieDisposable.java:80 | a null or blank entry neither registers anything nor aborts construction |
| TrieDisposable.EntryAdded | disposable-core/src/main/java/com/zliio/disposable/core/SuffixTrieDisposable.java:80-82 | an accepted entry registers its labels |
| TrieDisposable.RejectedMeansAllDots | disposable-core/src/main/java/com/zliio/disposable/core/SuffixTrieDisposable.java:79-84 | construction fails exactly because of a kept entry that is all dots once normalised |
| TrieDisposable.LoadedDomainContained | disposable-core/src/main/java/com/zliio/disposable/core/SuffixTrieDisposable.java:79-84 | a kept entry not ending in a dot is contained, and so matches |
| TrieDisposable.TrailingDotEntryNotContained | disposable-core/src/main/java/com/zliio/disposable/core/SuffixTrieDisposable.java:79-84 | the entry `com.` registers `["com"]`, so `com.` is not contained |
| TrieDisposable.LoadedEmailIsDisposable | disposable-core/src/main/java/com/zliio/disposable/core/SuffixTrieDisposable.java:97-105 | when `local@d` is an email and `d` was loaded, the email is disposable |
| TrieDisposable.SuffixTrieDisposable.Create | disposable-core/src/main/java/com/zliio/disposable/core/SuffixTrieDisposable.java:72-87 | a null set throws NullPointerException; construction fails, with IllegalArgumentException, exactly when some kept entry is rejected; otherwise the trie holds exactly the kept entries' labels |
| TrieDisposable.SuffixTrieDisposable.IsDisposableDomain | disposable-core/src/main/java/com/zliio/disposable/core/SuffixTrieDisposable.java:140-143 | the normalised domain or a parent domain was loaded |
| TrieDisposable.SuffixTrieDisposable.Validate | disposable-core/src/main/java/com/zliio/disposable/core/SuffixTrieDisposable.java:97-105 | false for blank input and for non-emails; for an email, whether its normalised domain or a parent domain was loaded |
| TrieDisposable.SuffixTrieDisposable.ValidateEmail | disposable-core/src/main/java/com/zliio/disposable/core/SuffixTrieDisposable.java:114-117 | the same answers as `validate` |
| TrieDisposable.SuffixTrieDisposable.ValidateDomain | disposable-core/src/main/java/com/zliio/disposable/core/SuffixTrieDisposable.java:126-131 | false for non-domains; otherwise whether the domain or a parent domain was loaded |
| Loader.Empty | disposable-core/src/main/java/com/zliio/disposable/DisposableDomainLoader.java:73-76 | `empty()` yields no domain |
| Loader.Of | disposable-core/src/main/java/com/zliio/disposable/DisposableDomainLoader.java:87-96 | a null set or a null entry throws NullPointerException; otherwise the result is exactly the normalised entries (the image `Image` computes), no more of them than entries |
| Loader.ImageSmaller | disposable-core/src/main/java/com/zliio/disposable/DisposableDomainLoader.java:90-93 | normalising a set can only merge entries |
| Loader.OfNormalizes | disposable-core/src/main/java/com/zliio/disposable/DisposableDomainLoader.java:90-93 | every domain `of` yields is trimmed and lower-case |
| Loader.OfKeepsBlank | disposable-core/src/main/java/com/zliio/disposable/DisposableDomainLoader.java:90-93 | `of` does not drop blank entries: they become the empty string |
| Loader.OfMergesPadded | disposable-core/src/main/java/com/zliio/disposable/DisposableDomainLoader.java:90-93 | two entries differing in a surrounding space become one domain |
| Loader.OfIdempotent | disposable-core/src/main/java/com/zliio/disposable/DisposableDomainLoader.java:87-96 | feeding the output of `of` to `of` again yields it unchanged |
| Loader.Lines | disposable-core/src/main/java/com/zliio/disposable/DisposableDomainLoader.java:113-117 | exactly the normalised non-blank lines; each non-empty, trimmed and lower-case |
| Loader.FromFile | disposable-core/src/main/java/com/zliio/disposable/DisposableDomainLoader.java:109-123 | the lines' domains once the file is read; the empty set when the file cannot be opened; an UncheckedIOException, which the catch does not handle, when reading a line fails |
| Loader.FromFileIsOfWithoutBlanks | disposable-core/src/main/java/com/zliio/disposable/DisposableDomainLoader.java:87-123 | `fromFile` on a file it reads yields what `of` yields for the same lines, less the empty string |
| Loader.LinesAreOfWithoutBlanks | disposable-core/src/main/java/com/zliio/disposable/DisposableDomainLoader.java:87-123 | the normalised non-blank lines are the domains `of` gives for the same lines less the empty string |
| Manager.Lookup | src/main/java/com/zliio/disposable/DomainsLibraryManager.java:57-63 | disposable exactly when blocked, or not allowed and listed |
| Manager.DifferenceCounts | src/main/java/com/zliio/disposable/DomainsLibraryManager.java:89-94 | the new size is the old size plus the added count minus the removed count |
| Manager.DomainsLibraryManager.constructor | src/main/java/com/zliio/disposable/DomainsLibraryManager.java:45-49 | the three sets as loaded |
| Manager.DomainsLibraryManager.ContainDomain | src/main/java/com/zliio/disposable/DomainsLibraryManager.java:55-64 | null throws NullPointerException; otherwise the lower-cased domain is disposable exactly when blocked, or not allowed and listed |
| Manager.DomainsLibraryManager.AddBlackDomain | src/main/java/com/zliio/disposable/DomainsLibraryManager.java:66-68 | the lower-cased domain joins the block list, nothing else changes, and it is then disposable |
| Manager.DomainsLibraryManager.AddWhiteDomain | src/main/java/com/zliio/disposable/DomainsLibraryManager.java:70-72 | the lower-cased domain joins the allow list, and it is then disposable only if blocked |
| Manager.DomainsLibraryManager.RemoveBlackDomain | src/main/java/com/zliio/disposable/DomainsLibraryManager.java:74-76 | the domain leaves the block list, and it is then disposable only when not allowed and listed |
| Manager.DomainsLibraryManager.RemoveWhiteDomain | src/main/java/com/zliio/disposable/DomainsLibraryManager.java:78-80 | the domain leaves the allow list, and it is then disposable when blocked or listed |
| Manager.DomainsLibraryManager.Refresh | src/main/java/com/zliio/disposable/DomainsLibraryManager.java:83-99 | a null or empty fetched set throws RuntimeException and keeps the list; otherwise the list is replaced, and the added and removed counts are reported and account for the change in size |
| Manager.ContainDomainIgnoresCase | src/main/java/com/zliio/disposable/DomainsLibraryManager.java:55-56 | a domain and its lower case get the same answer |
| Manager.BlockBeatsAllow | src/main/java/com/zliio/disposable/DomainsLibraryManager.java:57-59 | a domain both blocked and allowed is disposable |
| Manager.AllowBeatsList | src/main/java/com/zliio/disposable/DomainsLibraryManager.java:60-62 | an allowed, unblocked domain is never disposable |

## Left out

- Concurrency: the trie's read-write lock, the manager's `synchronized` swap, `volatile` and `LongAdder`. Each operation is modelled as running alone.
- Logging: every `log` call, and the warning for an empty set.
- Floating point: `calculateOptimalSize` and `calculateOptimalHashFunctions` compute with `Math.log` and `Math.ceil`. Their results are taken as the parameters `optimalSize` and `optimalK`; only the clamping and validation around them are modelled.
- `calculateHashFunctionsSimplified` and the constructor flag that selects it: the public constructor always computes the hash count.
- `getActualFalsePositiveRate`, `getBitUsageRatio` and the rest of `getConfig`: floating-point statistics. `getByteSize` is modelled as `Bloom.ByteSize`.
- I/O: reading the file in `fromFile`, the resource files and the HTTP fetch of `DomainsLibraryManager`. `FromFile` receives a `FileRead`: the lines, a file that cannot be opened, or a read that fails part-way. `Refresh` receives the fetched set or `None`.
- A loader is represented by the set it yields. The checkers receive that set, with `None` for a null loader or set.
- The `Disposable` facades, `BuiltinDomainLoader` and `HttpTxtDomainLoader` are not part of this model, nor are the Spring and Maven modules.
- Unicode: `toLowerCase` is modelled on ASCII letters only. Domains are matched by the regular expressions only when ASCII, but a loaded entry with other letters would be folded differently by Java.
- Java strings are UTF-16. The model's strings are sequences of Unicode scalar values, and UTF-16 appears only where it changes a result: in `hashCode`.
- The regular expressions are written as scanners, proved equal to a label-by-label description. Java's regex engine is not modelled.
- Trie nodes are values. Each Java node is reachable from exactly one parent, so no behaviour depends on aliasing.
- Bloom.BloomFilter.ApproximateElementCount: an accessor with no contract of its own. What the counter holds is stated exactly by the constructor, `Add`, `AddAll` and `Clear`.
- Bloom.BloomFilter.AddAll: a null varargs array, which throws NullPointerException at the loop, is not represented, because the items are a sequence.
- JavaInt.Xor32: no contract of its own. Only what `SecondHash` needs of the result, that forcing it odd gives an odd number, is stated.
- The hash strategy on a null item (`Objects.hashCode(null)` is 0) is not modelled: `add` and `mightContain` reject null before hashing.

## Findings

| source | as written | input that shows it | evidently intended | confidence | as-written member | corrected member |
|---|---|---|---|---|---|---|
| disposable-core/src/main/java/com/zliio/disposable/DomainSuffixTrie.java:179-183 | `remove` returns, and decrements `size` on, the prune signal of the root's child. That signal is true only when the whole path became bare | add `a.com` and `b.com`, then remove `a.com`: it is unregistered, yet `remove` answers false and `size()` stays 2 | true, and a decrement, exactly when a domain end was cleared | not executed | SuffixTrie.DomainSuffixTrie.Remove, SuffixTrie.RemoveMisreports, SuffixTrie.RemoveScenario | SuffixTrie.DomainSuffixTrie.RemoveFixed, SuffixTrie.RemoveTrackingCorrect |
| disposable-core/src/main/java/com/zliio/disposable/BloomFilter.java:269 | the `long` insertion count is cast with `(int) Math.min(n, Integer.MAX_VALUE)` before the positivity check. A count below `Integer.MIN_VALUE` wraps | `new BloomFilter(-4294967295L, 0.5)`: the cast gives 1, so the negative count passes | reject every count that is not positive | not executed | Bloom.ConfigureAsWritten, Bloom.InsertionsGuardAsWritten, Bloom.GuardAcceptsWrappedNegative, Bloom.BloomFilter.Create | Bloom.Configure, Bloom.InsertionsGuard, Bloom.GuardAgreesInIntRange, BloomDisposable.SizingAgreesWithGuard |
