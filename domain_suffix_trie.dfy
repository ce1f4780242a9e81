/**
 * DomainSuffixTrie: a trie over domain labels stored from the top-level label inward, so that
 * registering "example.com" makes every subdomain of it match.
 *
 * Each node is owned by exactly one parent's children map, so nodes are modelled as values of the
 * datatype TrieNode; the trie object itself, whose root and size counter change, is a class.
 */
module SuffixTrie {
  import opened Wrappers
  import opened JavaString

  // ---------------------------------------------------------------- nodes

  /** A node: its children keyed by domain label, and whether the path from the root to it is a registered domain. */
  datatype TrieNode = TrieNode(children: map<string, TrieNode>, isEndOfDomain: bool)

  /** The node `computeIfAbsent` creates. */
  const EmptyNode: TrieNode := TrieNode(map[], false)

  /** The node reached from `n` by following `labels` from the last (top-level) top inward, if every edge exists. */
  function NodeAt(n: TrieNode, labels: seq<string>): Option<TrieNode>
    decreases |labels|
  {
    if labels == [] then Some(n)
    else
      var top := labels[|labels| - 1];
      if top in n.children then NodeAt(n.children[top], labels[..|labels| - 1]) else None
  }

  /** The domain with labels `labels` is registered below `n`: its path exists and ends at a domain end. */
  predicate Registered(n: TrieNode, labels: seq<string>) {
    var m := NodeAt(n, labels);
    m.Some? && m.value.isEndOfDomain
  }

  /** Every node of the subtree `n` ends a domain or has a child: nothing is left to prune. */
  ghost predicate Live(n: TrieNode) {
    (n.isEndOfDomain || n.children != map[]) && forall k :: k in n.children ==> Live(n.children[k])
  }

  /** Every node strictly below `n` is live (the root itself may be bare). */
  ghost predicate ChildrenLive(n: TrieNode) {
    forall k :: k in n.children ==> Live(n.children[k])
  }

  /** Following `pre + suf` is following `suf` and then `pre`. */
  lemma {:induction false} NodeAtConcat(n: TrieNode, pre: seq<string>, suf: seq<string>)
    ensures NodeAt(n, pre + suf) == if NodeAt(n, suf).Some? then NodeAt(NodeAt(n, suf).value, pre) else None
    decreases |suf|
  {
    if suf == [] {
      assert pre + suf == pre;
    } else {
      var top := suf[|suf| - 1];
      assert (pre + suf)[|pre + suf| - 1] == top;
      assert (pre + suf)[..|pre + suf| - 1] == pre + suf[..|suf| - 1];
      if top in n.children {
        NodeAtConcat(n.children[top], pre, suf[..|suf| - 1]);
      }
    }
  }

  /** A live subtree holds at least one registered domain. */
  lemma {:induction false} LiveHasDomain(n: TrieNode) returns (l: seq<string>)
    requires Live(n)
    ensures Registered(n, l)
    decreases n
  {
    if n.isEndOfDomain {
      l := [];
    } else {
      var k :| k in n.children;
      var l' := LiveHasDomain(n.children[k]);
      l := l' + [k];
      assert l[..|l| - 1] == l';
    }
  }

  // ---------------------------------------------------------------- add

  /**
   * The loop of `add` over a node value: walk the labels from the last inward, creating missing children,
   * and mark the final node. Returns the new node and whether the final node was not yet a domain end.
   * Afterwards `labels` is registered, and the domain-end flag of `n` itself changes only for no labels.
   */
  function Insert(n: TrieNode, labels: seq<string>): (r: (TrieNode, bool))
    ensures Registered(r.0, labels)
    ensures labels != [] ==> r.0.isEndOfDomain == n.isEndOfDomain
    decreases |labels|
  {
    if labels == [] then (n.(isEndOfDomain := true), !n.isEndOfDomain)
    else
      var top := labels[|labels| - 1];
      var child := if top in n.children then n.children[top] else EmptyNode;
      var (c, added) := Insert(child, labels[..|labels| - 1]);
      (n.(children := n.children[top := c]), added)
  }

  /** After inserting `labels`, exactly `labels` has been added to the registered domains. */
  lemma {:induction false} InsertRegistered(n: TrieNode, labels: seq<string>, l: seq<string>)
    ensures Registered(Insert(n, labels).0, l) == (l == labels || Registered(n, l))
    decreases |labels|
  {
    var r := Insert(n, labels).0;
    if labels != [] && l != [] {
      var top, k := labels[|labels| - 1], l[|l| - 1];
      var child := if top in n.children then n.children[top] else EmptyNode;
      if k == top {
        InsertRegistered(child, labels[..|labels| - 1], l[..|l| - 1]);
        if l[..|l| - 1] == labels[..|labels| - 1] {
          assert l == labels;
        }
      }
    }
  }

  /** `add`'s result: the final node was new exactly when `labels` was not registered. */
  lemma {:induction false} InsertReportsNew(n: TrieNode, labels: seq<string>)
    ensures Insert(n, labels).1 == !Registered(n, labels)
    decreases |labels|
  {
    if labels != [] {
      var top := labels[|labels| - 1];
      var child := if top in n.children then n.children[top] else EmptyNode;
      InsertReportsNew(child, labels[..|labels| - 1]);
    }
  }

  /** Inserting below a node whose children are live yields a live node. */
  lemma {:induction false} InsertLive(n: TrieNode, labels: seq<string>)
    requires ChildrenLive(n)
    ensures Live(Insert(n, labels).0)
    decreases |labels|
  {
    if labels != [] {
      var top := labels[|labels| - 1];
      var child := if top in n.children then n.children[top] else EmptyNode;
      InsertLive(child, labels[..|labels| - 1]);
    }
  }

  // ---------------------------------------------------------------- remove

  /**
   * `removeRecursively` over a node value: clear the domain end at the end of `labels` and drop the child
   * edges that become prunable on the way back. Returns the new node and the prune signal for its parent.
   * Afterwards `labels` is not registered, and the domain-end flag of `n` itself changes only for no labels.
   */
  function RemoveRecursively(n: TrieNode, labels: seq<string>): (r: (TrieNode, bool))
    ensures !Registered(r.0, labels)
    ensures labels != [] ==> r.0.isEndOfDomain == n.isEndOfDomain
    decreases |labels|
  {
    if labels == [] then
      if !n.isEndOfDomain then (n, false)
      else (n.(isEndOfDomain := false), n.children == map[])
    else
      var top := labels[|labels| - 1];
      if top !in n.children then (n, false)
      else
        var (c, pruneChild) := RemoveRecursively(n.children[top], labels[..|labels| - 1]);
        if pruneChild then
          var m := n.(children := n.children - {top});
          (m, !m.isEndOfDomain && m.children == map[])
        else
          (n.(children := n.children[top := c]), false)
  }

  /** A node whose parent is told to prune it is bare: no domain end and no children. */
  lemma PruneMeansBare(n: TrieNode, labels: seq<string>)
    ensures RemoveRecursively(n, labels).1 ==> RemoveRecursively(n, labels).0 == EmptyNode
  {
  }

  /** After removal exactly `labels` has left the registered domains. */
  lemma {:induction false} RemoveRegistered(n: TrieNode, labels: seq<string>, l: seq<string>)
    ensures Registered(RemoveRecursively(n, labels).0, l) == (l != labels && Registered(n, l))
    decreases |labels|
  {
    if labels != [] && l != [] {
      var top, k := labels[|labels| - 1], l[|l| - 1];
      if top in n.children && k == top {
        var child := n.children[top];
        var (c, pruneChild) := RemoveRecursively(child, labels[..|labels| - 1]);
        RemoveRegistered(child, labels[..|labels| - 1], l[..|l| - 1]);
        if l[..|l| - 1] == labels[..|labels| - 1] {
          assert l == labels;
        }
        if pruneChild {
          PruneMeansBare(child, labels[..|labels| - 1]);
          assert !Registered(c, l[..|l| - 1]);
        }
      }
    }
  }

  /** The prune signal is only raised once a domain end was actually cleared. */
  lemma {:induction false} PruneMeansFound(n: TrieNode, labels: seq<string>)
    ensures RemoveRecursively(n, labels).1 ==> Registered(n, labels)
    decreases |labels|
  {
    if labels != [] {
      var top := labels[|labels| - 1];
      if top in n.children {
        PruneMeansFound(n.children[top], labels[..|labels| - 1]);
      }
    }
  }

  /** Removal keeps "every non-root node ends a domain or has a child": a node that loses both is pruned by its parent. */
  lemma {:induction false} RemoveLive(n: TrieNode, labels: seq<string>)
    requires ChildrenLive(n)
    ensures ChildrenLive(RemoveRecursively(n, labels).0)
    ensures Live(n) ==> RemoveRecursively(n, labels).1 || Live(RemoveRecursively(n, labels).0)
    decreases |labels|
  {
    if labels != [] {
      var top := labels[|labels| - 1];
      if top in n.children {
        RemoveLive(n.children[top], labels[..|labels| - 1]);
      }
    }
  }

  /**
   * What `remove` reports: at the root the prune signal is raised exactly when `labels` was the only
   * registered domain, i.e. when the trie is empty afterwards.
   */
  lemma RemoveSignalAtRoot(n: TrieNode, labels: seq<string>)
    requires !n.isEndOfDomain && ChildrenLive(n) && labels != []
    ensures RemoveRecursively(n, labels).1 <==> Registered(n, labels) && forall l :: Registered(n, l) ==> l == labels
  {
    var (m, prune) := RemoveRecursively(n, labels);
    if prune {
      PruneMeansFound(n, labels);
      forall l | Registered(n, l) ensures l == labels {
        RemoveRegistered(n, labels, l);
      }
    } else if Registered(n, labels) {
      var top := labels[|labels| - 1];
      assert top in n.children;
      var (c, pruneChild) := RemoveRecursively(n.children[top], labels[..|labels| - 1]);
      if pruneChild {
        assert m == n.(children := n.children - {top});
      } else {
        assert m == n.(children := n.children[top := c]);
        assert top in m.children;
      }
      assert m.children != map[];
      RemoveLive(n, labels);
      var k :| k in m.children;
      var l' := LiveHasDomain(m.children[k]);
      var l := l' + [k];
      assert l[..|l| - 1] == l';
      assert Registered(m, l);
      RemoveRegistered(n, labels, l);
    }
  }

  /**
   * The corrected recursion: the same walk, also returning whether a domain end was cleared.
   * Returns the new node, the prune signal and the removed flag. Afterwards `labels` is not registered,
   * and the prune signal is raised only when a domain end was cleared.
   */
  function RemoveTracking(n: TrieNode, labels: seq<string>): (r: (TrieNode, bool, bool))
    ensures !Registered(r.0, labels)
    ensures r.1 ==> r.2
    decreases |labels|
  {
    if labels == [] then
      if !n.isEndOfDomain then (n, false, false)
      else (n.(isEndOfDomain := false), n.children == map[], true)
    else
      var top := labels[|labels| - 1];
      if top !in n.children then (n, false, false)
      else
        var (c, pruneChild, removed) := RemoveTracking(n.children[top], labels[..|labels| - 1]);
        if pruneChild then
          var m := n.(children := n.children - {top});
          (m, !m.isEndOfDomain && m.children == map[], removed)
        else
          (n.(children := n.children[top := c]), false, removed)
  }

  /** The corrected recursion changes the trie as `removeRecursively` does and reports removal exactly when `labels` was registered. */
  lemma {:induction false} RemoveTrackingCorrect(n: TrieNode, labels: seq<string>)
    ensures RemoveTracking(n, labels).0 == RemoveRecursively(n, labels).0
    ensures RemoveTracking(n, labels).1 == RemoveRecursively(n, labels).1
    ensures RemoveTracking(n, labels).2 == Registered(n, labels)
    decreases |labels|
  {
    if labels != [] {
      var top := labels[|labels| - 1];
      if top in n.children {
        RemoveTrackingCorrect(n.children[top], labels[..|labels| - 1]);
      }
    }
  }

  // ---------------------------------------------------------------- validateAndSplitDomain

  /**
   * `validateAndSplitDomain`: null is a NullPointerException; the empty string, and a string that
   * `split("\\.")` turns into no labels (only dots), are IllegalArgumentExceptions. Empty leading or
   * inner labels are accepted.
   */
  function ValidateAndSplitDomain(domain: Option<string>): (r: Result<seq<string>>)
    ensures domain.None? ==> r == Failure(NullPointerException)
    ensures domain.Some? ==>
      (r.Success? <==> exists i :: 0 <= i < |domain.value| && domain.value[i] != '.')
    ensures domain.Some? && r.Failure? ==> r.error == IllegalArgumentException
    ensures r.Success? ==> r.value == JavaSplit(Lower(domain.value)) && r.value != []
    ensures r.Success? ==> r.value[|r.value| - 1] != ""
  {
    if domain.None? then Failure(NullPointerException)
    else if domain.value == [] then Failure(IllegalArgumentException)
    else
      var normalized := Lower(domain.value);
      var labels := JavaSplit(normalized);
      JavaSplitNoLabels(normalized);
      assert forall i :: 0 <= i < |normalized| ==> (normalized[i] == '.' <==> domain.value[i] == '.');
      if |labels| == 0 || (|labels| == 1 && labels[0] == []) then Failure(IllegalArgumentException)
      else Success(labels)
  }

  // ---------------------------------------------------------------- what the read path answers

  /** A registered domain has labels and its top-level label is not empty, as `split` never yields one. */
  predicate TopLabeled(l: seq<string>) {
    l != [] && l[|l| - 1] != ""
  }

  /** Some right-anchored run of whole labels of `labels` (the domain itself or a parent domain) is in `domains`. */
  ghost predicate SomeSuffixIn(domains: set<seq<string>>, labels: seq<string>) {
    exists j :: 0 <= j <= |labels| && labels[j..] in domains
  }

  /** The answer of `matches(domain)` when the registered domains are `domains`. */
  ghost predicate MatchesDomain(domains: set<seq<string>>, domain: string) {
    domain != [] && SomeSuffixIn(domains, SplitAll(Lower(domain)))
  }

  /** The answer of `contains(domain)` when the registered domains are `domains`. */
  ghost predicate ContainsDomain(domains: set<seq<string>>, domain: string) {
    domain != [] && SplitAll(Lower(domain)) in domains
  }

  /** An exactly registered domain also matches. */
  lemma ContainsImpliesMatches(domains: set<seq<string>>, domain: string)
    ensures ContainsDomain(domains, domain) ==> MatchesDomain(domains, domain)
  {
    var ls := SplitAll(Lower(domain));
    assert ls[0..] == ls;
  }

  /** Registering a domain covers its subdomains: if `d` matches, so does `x + "." + d`, for any `x`. */
  lemma SubdomainMatches(domains: set<seq<string>>, x: string, d: string)
    requires MatchesDomain(domains, d)
    ensures MatchesDomain(domains, x + "." + d)
  {
    var a, b := SplitAll(Lower(x)), SplitAll(Lower(d));
    assert SplitAll(Lower(x + "." + d)) == a + b by {
      assert Lower(x + "." + d) == Lower(x) + "." + Lower(d) by {
        LowerConcat(x + ".", d);
        LowerConcat(x, ".");
        assert Lower(".") == ".";
      }
      SplitAllConcat(Lower(x), Lower(d));
    }
    var j :| 0 <= j <= |b| && b[j..] in domains;
    assert (a + b)[|a| + j..] == b[j..];
  }

  /** `matches` and `contains` ignore case. */
  lemma LookupsIgnoreCase(domains: set<seq<string>>, domain: string)
    ensures MatchesDomain(domains, domain) == MatchesDomain(domains, Lower(domain))
    ensures ContainsDomain(domains, domain) == ContainsDomain(domains, Lower(domain))
  {
    LowerIdempotent(domain);
  }

  /** A top path that leaves the trie at `L[m - 1]` rules out every longer suffix. */
  lemma NoEdgeNoLongerSuffix(root: TrieNode, L: seq<string>, m: nat, current: TrieNode)
    requires 1 <= m <= |L| && NodeAt(root, L[m..]) == Some(current) && L[m - 1] !in current.children
    ensures forall j :: 0 <= j < m ==> !Registered(root, L[j..])
  {
    forall j | 0 <= j < m ensures !Registered(root, L[j..]) {
      assert L[j..] == L[j..m - 1] + L[m - 1..];
      assert L[m - 1..] == [L[m - 1]] + L[m..];
      NodeAtConcat(root, [L[m - 1]], L[m..]);
      NodeAtConcat(root, L[j..m - 1], L[m - 1..]);
    }
  }

  /** No run `L[j..]` with `j` above `m` is registered below `root`. */
  ghost predicate NoneRegisteredAbove(root: TrieNode, L: seq<string>, m: nat) {
    forall j :: m < j <= |L| ==> !Registered(root, L[j..])
  }

  /** Walking one label further down from a node that ends no domain keeps the runs above unregistered. */
  lemma NoneRegisteredStep(root: TrieNode, L: seq<string>, m: nat, current: TrieNode)
    requires 1 <= m <= |L| && NodeAt(root, L[m..]) == Some(current) && !current.isEndOfDomain
    requires NoneRegisteredAbove(root, L, m)
    ensures NoneRegisteredAbove(root, L, m - 1)
  {
  }

  /** A registered right-anchored run of the labels of `d` makes `d` match. */
  lemma RegisteredSuffixMatches(domains: set<seq<string>>, root: TrieNode, d: string, j: nat)
    requires forall l :: l in domains <==> Registered(root, l)
    requires d != [] && j <= |SplitAll(Lower(d))| && Registered(root, SplitAll(Lower(d))[j..])
    ensures MatchesDomain(domains, d)
  {
  }

  /** When no right-anchored run of the labels of `d` is registered, `d` does not match. */
  lemma NoRegisteredSuffixNoMatch(domains: set<seq<string>>, root: TrieNode, d: string, m: nat)
    requires forall l :: l in domains <==> Registered(root, l)
    requires var L := SplitAll(Lower(d)); m <= |L| && !Registered(root, L[m..])
    requires var L := SplitAll(Lower(d)); forall j :: 0 <= j <= |L| && j != m ==> !Registered(root, L[j..])
    ensures !MatchesDomain(domains, d)
  {
  }

  /** Following one more top from the node of `L[m..]` reaches the node of `L[m - 1..]`. */
  lemma NodeAtStep(root: TrieNode, L: seq<string>, m: nat, current: TrieNode)
    requires 1 <= m <= |L| && NodeAt(root, L[m..]) == Some(current) && L[m - 1] in current.children
    ensures NodeAt(root, L[m - 1..]) == Some(current.children[L[m - 1]])
  {
    assert L[m - 1..] == [L[m - 1]] + L[m..];
    NodeAtConcat(root, [L[m - 1]], L[m..]);
  }

  /**
   * One step of the lastIndexOf walk over `s`, whose labels are `L`: when the labels of `s[..end]` are `L[..m]`,
   * the next label cut off is `L[m - 1]`, and what is left before it holds the labels `L[..m - 1]`.
   */
  lemma WalkStep(s: string, L: seq<string>, end: nat, m: nat, start: int)
    requires L == SplitAll(s) && end <= |s| && 1 <= m <= |L| && SplitAll(s[..end]) == L[..m]
    requires start == LastIndexOf(s, '.', end - 1)
    ensures start < end && s[start + 1..end] == L[m - 1]
    ensures start < 0 ==> m == 1
    ensures start >= 0 ==> 2 <= m && SplitAll(s[..start]) == L[..m - 1]
  {
    LastIndexOfPrefix(s, '.', end);
    if start >= 0 {
      WalkStepCut(s, L, end, m, start);
    } else {
      var prefix := s[..end];
      assert prefix == s[start + 1..end];
      assert L[..m][m - 1] == L[m - 1];
    }
  }

  /** The step of the walk when a dot is found at `start`. */
  lemma WalkStepCut(s: string, L: seq<string>, end: nat, m: nat, start: int)
    requires end <= |s| && 1 <= m <= |L| && SplitAll(s[..end]) == L[..m]
    requires 0 <= start && start == LastIndexOf(s[..end], '.', end - 1)
    ensures start < end && s[start + 1..end] == L[m - 1]
    ensures 2 <= m && SplitAll(s[..start]) == L[..m - 1]
  {
    var prefix := s[..end];
    assert prefix[..start] == s[..start];
    assert prefix[start + 1..] == s[start + 1..end];
    assert L[..m] == SplitAll(s[..start]) + [s[start + 1..end]];
    assert L[..m][m - 1] == L[m - 1];
    assert L[..m][..m - 1] == L[..m - 1];
  }

  // ---------------------------------------------------------------- the trie object

  class DomainSuffixTrie {
    /** The root node; it never ends a domain, since every registered domain has at least one top. */
    var root: TrieNode
    /** The counter `size()` returns. */
    var size: int
    /** The registered domains, as top sequences. */
    ghost var Contents: set<seq<string>>

    ghost predicate Valid()
      reads this
    {
      && !root.isEndOfDomain
      && ChildrenLive(root)
      && (forall l :: l in Contents <==> Registered(root, l))
      && forall l :: l in Contents ==> TopLabeled(l)
    }

    /** The counter equals the number of registered domains. */
    ghost predicate SizeExact()
      reads this
    {
      size == |Contents|
    }

    constructor ()
      ensures Valid() && SizeExact()
      ensures Contents == {} && size == 0
    {
      root := EmptyNode;
      size := 0;
      Contents := {};
    }

    /** `size()`: the number of registered domains, while the counter is exact. */
    function Size(): (r: int)
      reads this
      ensures SizeExact() ==> r == |Contents|
    {
      size
    }

    /** `add`: registers the domain; the result is true exactly when it was not already registered. */
    method Add(domain: Option<string>) returns (r: Result<bool>)
      requires Valid()
      modifies this
      ensures Valid()
      ensures ValidateAndSplitDomain(domain).Failure? ==>
        r == Failure(ValidateAndSplitDomain(domain).error) && Contents == old(Contents) && size == old(size)
      ensures ValidateAndSplitDomain(domain).Success? ==>
        var labels := ValidateAndSplitDomain(domain).value;
        && r == Success(labels !in old(Contents))
        && Contents == old(Contents) + {labels}
        && size == old(size) + (if labels in old(Contents) then 0 else 1)
      ensures old(SizeExact()) ==> SizeExact()
    {
      var split := ValidateAndSplitDomain(domain);
      if split.Failure? {
        return Failure(split.error);
      }
      var labels := split.value;
      CardAdd(Contents, labels);
      var (newRoot, added) := Insert(root, labels);
      InsertReportsNew(root, labels);
      InsertLive(root, labels);
      forall l ensures Registered(newRoot, l) == (l == labels || Registered(root, l)) {
        InsertRegistered(root, labels, l);
      }
      root := newRoot;
      Contents := Contents + {labels};
      if added {
        size := size + 1;
      }
      r := Success(added);
    }

    /**
     * `matches`: walks the labels from the top-level one inward with lastIndexOf, answering true as soon as
     * the node reached so far ends a domain.
     */
    method Matches(domain: Option<string>) returns (r: bool)
      requires Valid()
      ensures r == (domain.Some? && MatchesDomain(Contents, domain.value))
    {
      if domain.None? || domain.value == [] {
        return false;
      }
      var s := Lower(domain.value);
      ghost var L := SplitAll(s);
      var current := root;
      var end := |s|;
      ghost var m := |L|;
      assert s[..end] == s;
      while true
        invariant 0 <= end <= |s|
        invariant 1 <= m <= |L| && SplitAll(s[..end]) == L[..m]
        invariant NodeAt(root, L[m..]) == Some(current)
        invariant NoneRegisteredAbove(root, L, m)
        decreases end
      {
        if current.isEndOfDomain {
          RegisteredSuffixMatches(Contents, root, domain.value, m);
          return true;
        }
        var start := LastIndexOf(s, '.', end - 1);
        WalkStep(s, L, end, m, start);
        var top := s[start + 1..end];
        if top !in current.children {
          NoEdgeNoLongerSuffix(root, L, m, current);
          NoRegisteredSuffixNoMatch(Contents, root, domain.value, m);
          return current.isEndOfDomain;
        }
        NodeAtStep(root, L, m, current);
        NoneRegisteredStep(root, L, m, current);
        current := current.children[top];
        if start == -1 {
          m := 0;
          break;
        }
        end := start;
        m := m - 1;
      }
      r := current.isEndOfDomain;
      if r {
        RegisteredSuffixMatches(Contents, root, domain.value, 0);
      } else {
        NoRegisteredSuffixNoMatch(Contents, root, domain.value, 0);
      }
    }

    /** `contains`: walks every top with lastIndexOf and answers whether the final node ends a domain. */
    method Contains(domain: Option<string>) returns (r: bool)
      requires Valid()
      ensures r == (domain.Some? && ContainsDomain(Contents, domain.value))
    {
      if domain.None? || domain.value == [] {
        return false;
      }
      var s := Lower(domain.value);
      ghost var L := SplitAll(s);
      var current := root;
      var end := |s|;
      ghost var m := |L|;
      assert s[..end] == s;
      while true
        invariant 0 <= end <= |s|
        invariant 1 <= m <= |L| && SplitAll(s[..end]) == L[..m]
        invariant NodeAt(root, L[m..]) == Some(current)
        decreases end
      {
        var start := LastIndexOf(s, '.', end - 1);
        WalkStep(s, L, end, m, start);
        var top := s[start + 1..end];
        if top !in current.children {
          NoEdgeNoLongerSuffix(root, L, m, current);
          assert L[0..] == L;
          return false;
        }
        NodeAtStep(root, L, m, current);
        current := current.children[top];
        if start == -1 {
          m := 0;
          break;
        }
        end := start;
        m := m - 1;
      }
      assert L[0..] == L;
      r := current.isEndOfDomain;
    }

    /**
     * `remove`, as written: the domain is unregistered and pruned, but the result (and the decrement of
     * `size`) is the prune signal of the root, which is raised only when the trie becomes empty.
     */
    method Remove(domain: Option<string>) returns (r: Result<bool>)
      requires Valid()
      modifies this
      ensures Valid()
      ensures ValidateAndSplitDomain(domain).Failure? ==>
        r == Failure(ValidateAndSplitDomain(domain).error) && Contents == old(Contents) && size == old(size)
      ensures ValidateAndSplitDomain(domain).Success? ==>
        var labels := ValidateAndSplitDomain(domain).value;
        && r == Success(old(Contents) == {labels})
        && Contents == old(Contents) - {labels}
        && size == old(size) - (if old(Contents) == {labels} then 1 else 0)
      ensures ValidateAndSplitDomain(domain).Success? ==> !ContainsDomain(Contents, domain.value)
      ensures ValidateAndSplitDomain(domain).Success? && ValidateAndSplitDomain(domain).value !in old(Contents) ==>
        root == old(root)
    {
      var split := ValidateAndSplitDomain(domain);
      if split.Failure? {
        return Failure(split.error);
      }
      var labels := split.value;
      var (newRoot, prune) := RemoveRecursively(root, labels);
      RemoveSignalAtRoot(root, labels);
      RemoveLive(root, labels);
      forall l ensures Registered(newRoot, l) == (l != labels && Registered(root, l)) {
        RemoveRegistered(root, labels, l);
      }
      if !Registered(root, labels) {
        UnregisteredRemoveIsIdentity(root, labels);
      }
      assert prune <==> old(Contents) == {labels};
      root := newRoot;
      Contents := Contents - {labels};
      RemovedNotContained(Contents, domain.value);
      if prune {
        size := size - 1;
        return Success(true);
      }
      return Success(false);
    }

    /** `remove` with the result its documentation promises: true exactly when the domain was registered. */
    method RemoveFixed(domain: Option<string>) returns (r: Result<bool>)
      requires Valid()
      modifies this
      ensures Valid()
      ensures ValidateAndSplitDomain(domain).Failure? ==>
        r == Failure(ValidateAndSplitDomain(domain).error) && Contents == old(Contents) && size == old(size)
      ensures ValidateAndSplitDomain(domain).Success? ==>
        var labels := ValidateAndSplitDomain(domain).value;
        && r == Success(labels in old(Contents))
        && Contents == old(Contents) - {labels}
        && size == old(size) - (if labels in old(Contents) then 1 else 0)
      ensures ValidateAndSplitDomain(domain).Success? ==> !ContainsDomain(Contents, domain.value)
      ensures old(SizeExact()) ==> SizeExact()
    {
      var split := ValidateAndSplitDomain(domain);
      if split.Failure? {
        return Failure(split.error);
      }
      var labels := split.value;
      CardRemove(Contents, labels);
      var (newRoot, _, removed) := RemoveTracking(root, labels);
      RemoveTrackingCorrect(root, labels);
      RemoveLive(root, labels);
      forall l ensures Registered(newRoot, l) == (l != labels && Registered(root, l)) {
        RemoveRegistered(root, labels, l);
      }
      root := newRoot;
      Contents := Contents - {labels};
      RemovedNotContained(Contents, domain.value);
      if removed {
        size := size - 1;
      }
      r := Success(removed);
    }
  }

  /**
   * Once the labels `split` gives for `d` are not registered, `contains(d)` is false: without a trailing dot
   * the walk sees the same labels, and with one it sees an empty top-level label, which no domain has.
   */
  lemma RemovedNotContained(domains: set<seq<string>>, d: string)
    requires forall l :: l in domains ==> TopLabeled(l)
    requires ValidateAndSplitDomain(Some(d)).Success? && ValidateAndSplitDomain(Some(d)).value !in domains
    ensures !ContainsDomain(domains, d)
  {
    var s := Lower(d);
    assert d != [];
    if s[|s| - 1] == '.' {
      SplitAllTrailingDot(s);
    } else {
      JavaSplitAgrees(s);
    }
  }

  /** Removing a domain that is not registered changes nothing. */
  lemma {:induction false} UnregisteredRemoveIsIdentity(n: TrieNode, labels: seq<string>)
    requires !Registered(n, labels)
    ensures RemoveRecursively(n, labels) == (n, false)
    decreases |labels|
  {
    if labels != [] {
      var top := labels[|labels| - 1];
      if top in n.children {
        UnregisteredRemoveIsIdentity(n.children[top], labels[..|labels| - 1]);
        assert n.children[top := n.children[top]] == n.children;
      }
    }
  }

  lemma CardAdd<T>(s: set<T>, x: T)
    ensures |s + {x}| == |s| + (if x in s then 0 else 1)
  {
    if x in s {
      assert s + {x} == s;
    }
  }

  lemma CardRemove<T>(s: set<T>, x: T)
    ensures |s - {x}| == |s| - (if x in s then 1 else 0)
  {
    if x !in s {
      assert s - {x} == s;
    }
  }

  // ---------------------------------------------------------------- scenarios

  /** A string without upper-case ASCII letters is its own lower-case form. */
  lemma LowerOfLowerCase(s: string)
    requires forall i :: 0 <= i < |s| ==> !('A' <= s[i] <= 'Z')
    ensures Lower(s) == s
  {
  }

  /** A dot-free string is a single label. */
  lemma DotFreeIsOneLabel(s: string)
    requires forall i :: 0 <= i < |s| ==> s[i] != '.'
    ensures SplitAll(s) == [s]
  {
  }

  /** A lower-case name `x.y` with two non-empty dot-free labels is registered as, and walked as, `[x, y]`. */
  lemma TwoLabels(x: string, y: string)
    requires x != [] && y != []
    requires forall i :: 0 <= i < |x| ==> x[i] != '.' && !('A' <= x[i] <= 'Z')
    requires forall i :: 0 <= i < |y| ==> y[i] != '.' && !('A' <= y[i] <= 'Z')
    ensures ValidateAndSplitDomain(Some(x + "." + y)) == Success([x, y])
    ensures SplitAll(Lower(x + "." + y)) == [x, y]
  {
    var s := x + "." + y;
    LowerOfLowerCase(x);
    LowerOfLowerCase(y);
    LowerOfLowerCase(".");
    LowerConcat(x + ".", y);
    LowerConcat(x, ".");
    assert Lower(s) == s;
    DotFreeIsOneLabel(x);
    DotFreeIsOneLabel(y);
    SplitAllConcat(x, y);
    assert s[|s| - 1] == y[|y| - 1];
    JavaSplitAgrees(s);
    assert s[0] == x[0];
    assert SplitAll(s) == [x, y];
    var r := ValidateAndSplitDomain(Some(s));
    assert r.Success?;
    assert r.value == JavaSplit(s);
  }

  /** The suffix-tree test registers "itsc.cc" and "google.ccm" as two-label domains. */
  lemma SuffixTreeRegisters()
    ensures ValidateAndSplitDomain(Some("itsc.cc")) == Success(["itsc", "cc"])
    ensures ValidateAndSplitDomain(Some("google.ccm")) == Success(["google", "ccm"])
  {
    assert "itsc.cc" == "itsc" + "." + "cc";
    assert "google.ccm" == "google" + "." + "ccm";
    TwoLabels("itsc", "cc");
    TwoLabels("google", "ccm");
  }

  /** Only whole labels count: "a-itsc.cc" does not match once "itsc.cc" and "google.ccm" are registered. */
  lemma SuffixTreeRejectsLookalike()
    ensures !MatchesDomain({["itsc", "cc"], ["google", "ccm"]}, "a-itsc.cc")
  {
    assert "a-itsc.cc" == "a-itsc" + "." + "cc";
    TwoLabels("a-itsc", "cc");
    var L := ["a-itsc", "cc"];
    assert L[0..] == L && L[1..] == ["cc"] && L[2..] == [];
  }

  /** A registered two-label domain `x.y` matches. */
  lemma TwoLabelsMatch(domains: set<seq<string>>, x: string, y: string)
    requires x != [] && y != []
    requires forall i :: 0 <= i < |x| ==> x[i] != '.' && !('A' <= x[i] <= 'Z')
    requires forall i :: 0 <= i < |y| ==> y[i] != '.' && !('A' <= y[i] <= 'Z')
    requires [x, y] in domains
    ensures MatchesDomain(domains, x + "." + y)
  {
    TwoLabels(x, y);
    ContainsImpliesMatches(domains, x + "." + y);
  }

  /** A registered domain matches itself: "google.ccm". */
  lemma SuffixTreeMatchesRegistered()
    ensures MatchesDomain({["itsc", "cc"], ["google", "ccm"]}, "google.ccm")
  {
    TwoLabelsMatch({["itsc", "cc"], ["google", "ccm"]}, "google", "ccm");
    assert "google" + "." + "ccm" == "google.ccm";
  }

  /** One level of subdomain matches: "a.itsc.cc". */
  lemma SuffixTreeMatchesSubdomain()
    ensures MatchesDomain({["itsc", "cc"], ["google", "ccm"]}, "a.itsc.cc")
  {
    var domains := {["itsc", "cc"], ["google", "ccm"]};
    var itsc, cc, a := "itsc", "cc", "a";
    TwoLabelsMatch(domains, itsc, cc);
    SubdomainMatches(domains, a, itsc + "." + cc);
    assert a + "." + (itsc + "." + cc) == "a.itsc.cc";
  }

  /** Two levels of subdomain match too: "a.a.itsc.cc". */
  lemma SuffixTreeMatchesSubdomains()
    ensures MatchesDomain({["itsc", "cc"], ["google", "ccm"]}, "a.a.itsc.cc")
  {
    var domains := {["itsc", "cc"], ["google", "ccm"]};
    var sub, a := "a.itsc.cc", "a";
    SuffixTreeMatchesSubdomain();
    SubdomainMatches(domains, a, sub);
    assert a + "." + sub == "a.a.itsc.cc";
  }

  /**
   * `remove` misreports whenever another domain stays registered: the domain is gone, yet the root's prune
   * signal, which `remove` returns, is false.
   */
  lemma RemoveMisreports(n: TrieNode, labels: seq<string>, other: seq<string>)
    requires !n.isEndOfDomain && ChildrenLive(n) && labels != []
    requires Registered(n, labels) && Registered(n, other) && other != labels
    ensures !RemoveRecursively(n, labels).1
    ensures !Registered(RemoveRecursively(n, labels).0, labels)
  {
    RemoveSignalAtRoot(n, labels);
    RemoveRegistered(n, labels, labels);
  }

  /** "a.com" and "b.com" are registered as two-label domains. */
  lemma RemoveScenarioLabels()
    ensures ValidateAndSplitDomain(Some("a.com")) == Success(["a", "com"])
    ensures ValidateAndSplitDomain(Some("b.com")) == Success(["b", "com"])
  {
    assert "a.com" == "a" + "." + "com" && "b.com" == "b" + "." + "com";
    TwoLabels("a", "com");
    TwoLabels("b", "com");
  }

  /** The concrete case: after adding "a.com" and "b.com", removing "a.com" unregisters it, yet answers false and leaves the counter at 2 with one domain left. */
  method RemoveScenario() returns (removed: Result<bool>, size: int, stillContained: bool)
    ensures removed == Success(false) && size == 2 && !stillContained
  {
    var trie := new DomainSuffixTrie();
    RemoveScenarioLabels();
    var _ := trie.Add(Some("a.com"));
    var _ := trie.Add(Some("b.com"));
    assert trie.size == 2;
    removed := trie.Remove(Some("a.com"));
    size := trie.Size();
    stillContained := trie.Contains(Some("a.com"));
  }
}
