/**
 * The java.lang.String operations the domain-matching engine relies on: trim, toLowerCase,
 * indexOf/lastIndexOf, split("\\.") and hashCode, together with the label splitter that the
 * trie's lastIndexOf walk amounts to.
 */
module JavaString {
  import opened JavaInt

  // ---------------------------------------------------------------- trim

  /** The characters `String.trim` strips from both ends: every char at or below U+0020. */
  predicate IsTrimSpace(c: char) {
    c <= ' '
  }

  /** `s` without its leading trim spaces. */
  function TrimStart(s: string): (r: string)
    ensures |r| <= |s| && r == s[|s| - |r|..]
    ensures forall i :: 0 <= i < |s| - |r| ==> IsTrimSpace(s[i])
    ensures r != [] ==> !IsTrimSpace(r[0])
    decreases |s|
  {
    if s != [] && IsTrimSpace(s[0]) then TrimStart(s[1..]) else s
  }

  /** `s` without its trailing trim spaces. */
  function TrimEnd(s: string): (r: string)
    ensures |r| <= |s| && r == s[..|r|]
    ensures forall i :: |r| <= i < |s| ==> IsTrimSpace(s[i])
    ensures r != [] ==> !IsTrimSpace(r[|r| - 1])
    decreases |s|
  {
    if s != [] && IsTrimSpace(s[|s| - 1]) then TrimEnd(s[..|s| - 1]) else s
  }

  /** `String.trim`. */
  function Trim(s: string): (r: string)
    ensures r == [] <==> forall i :: 0 <= i < |s| ==> IsTrimSpace(s[i])
    ensures r != [] ==> !IsTrimSpace(r[0]) && !IsTrimSpace(r[|r| - 1])
  {
    var t := TrimStart(s);
    var r := TrimEnd(t);
    assert r != [] ==> r[0] == t[0];
    assert t != [] ==> s[|s| - |t|] == t[0];
    r
  }

  /** A string that neither starts nor ends with a trim space is its own trim. */
  lemma TrimOfTrimmed(s: string)
    requires s == [] || (!IsTrimSpace(s[0]) && !IsTrimSpace(s[|s| - 1]))
    ensures Trim(s) == s
  {
  }

  /** One space before a string with no surrounding trim spaces is all that `trim` removes. */
  lemma TrimPaddedFront(s: string)
    requires s != [] && !IsTrimSpace(s[0]) && !IsTrimSpace(s[|s| - 1])
    ensures Trim(" " + s) == s
  {
    assert (" " + s)[1..] == s;
    assert TrimStart(" " + s) == s;
  }

  /** One space after a string with no surrounding trim spaces is all that `trim` removes. */
  lemma TrimPaddedBack(s: string)
    requires s != [] && !IsTrimSpace(s[0]) && !IsTrimSpace(s[|s| - 1])
    ensures Trim(s + " ") == s
  {
    assert TrimStart(s + " ") == s + " ";
    assert (s + " ")[..|s|] == s;
    assert TrimEnd(s + " ") == s;
  }

  /** One space before or after a string with no surrounding trim spaces is all that `trim` removes. */
  lemma TrimPadded(s: string)
    requires s != [] && !IsTrimSpace(s[0]) && !IsTrimSpace(s[|s| - 1])
    ensures Trim(" " + s) == s && Trim(s + " ") == s
  {
    TrimPaddedFront(s);
    TrimPaddedBack(s);
  }

  // ---------------------------------------------------------------- toLowerCase

  /** ASCII case folding of one char. */
  function LowerChar(c: char): (r: char)
    ensures IsTrimSpace(r) == IsTrimSpace(c)
  {
    if 'A' <= c <= 'Z' then (c as int + 32) as char else c
  }

  /** `String.toLowerCase`, restricted to ASCII letters; `LowerChars` states what it does to each char. */
  function Lower(s: string): (r: string)
    ensures |r| == |s|
  {
    seq(|s|, i requires 0 <= i < |s| => LowerChar(s[i]))
  }

  /** Each upper-case ASCII letter becomes its lower-case letter, every other char is kept, and no upper-case letter is left. */
  lemma LowerChars(s: string)
    ensures forall i :: 0 <= i < |s| ==> !('A' <= Lower(s)[i] <= 'Z')
    ensures forall i :: 0 <= i < |s| ==>
      if 'A' <= s[i] <= 'Z' then Lower(s)[i] as int == s[i] as int + 32 else Lower(s)[i] == s[i]
  {
  }

  lemma LowerIdempotent(s: string)
    ensures Lower(Lower(s)) == Lower(s)
  {
  }

  /** Lower-casing works char by char, so it distributes over concatenation. */
  lemma LowerConcat(a: string, b: string)
    ensures Lower(a + b) == Lower(a) + Lower(b)
  {
    assert forall i :: 0 <= i < |a + b| ==> Lower(a + b)[i] == (Lower(a) + Lower(b))[i];
  }

  /** Lower-casing keeps the ends of a string free of trim spaces, so a trimmed string stays trimmed. */
  lemma LowerKeepsTrimmed(t: string)
    requires t == [] || (!IsTrimSpace(t[0]) && !IsTrimSpace(t[|t| - 1]))
    ensures Trim(Lower(t)) == Lower(t)
  {
    var l := Lower(t);
    assert l == [] || (!IsTrimSpace(l[0]) && !IsTrimSpace(l[|l| - 1])) by {
      if l != [] {
        assert l[0] == LowerChar(t[0]);
        assert l[|l| - 1] == LowerChar(t[|t| - 1]);
      }
    }
    TrimOfTrimmed(l);
  }

  /** Lower-casing a trimmed string leaves it trimmed. */
  lemma TrimLowerTrimmed(s: string)
    ensures Trim(Lower(Trim(s))) == Lower(Trim(s))
  {
    LowerKeepsTrimmed(Trim(s));
  }

  /** `s.trim().toLowerCase()`, the normalisation applied to every loaded and every queried domain. */
  function Normalize(s: string): (r: string)
    ensures r == [] <==> Trim(s) == []
  {
    Lower(Trim(s))
  }

  /** A normalised string is its own trim and its own lower case, so normalising it again changes nothing. */
  lemma NormalizeIsNormal(s: string)
    ensures Trim(Normalize(s)) == Normalize(s) && Lower(Normalize(s)) == Normalize(s)
    ensures Normalize(Normalize(s)) == Normalize(s)
  {
    TrimLowerTrimmed(s);
    LowerIdempotent(Trim(s));
  }

  /** A lower-case string without surrounding trim spaces is its own normalisation. */
  lemma NormalizeFixes(s: string)
    requires Trim(s) == s && Lower(s) == s
    ensures Normalize(s) == s
  {
  }

  // ---------------------------------------------------------------- indexOf / lastIndexOf

  /** `String.indexOf(c)`: the first index of `c`, or -1. */
  function IndexOf(s: string, c: char): (r: int)
    ensures -1 <= r < |s|
    ensures r >= 0 ==> s[r] == c
    ensures forall i :: 0 <= i < |s| && (r < 0 || i < r) ==> s[i] != c
  {
    if s == [] then -1
    else if s[0] == c then 0
    else
      var k := IndexOf(s[1..], c);
      if k < 0 then -1 else k + 1
  }

  /** `String.lastIndexOf(c, from)`: the last index at or before `from` holding `c`, or -1; a negative `from` yields -1. */
  function LastIndexOf(s: string, c: char, from: int): (r: int)
    ensures -1 <= r < |s|
    ensures r >= 0 ==> r <= from && s[r] == c
    ensures forall i :: r < i <= from && 0 <= i < |s| ==> s[i] != c
    decreases if from < 0 then 0 else if from >= |s| then |s| + 1 else from + 1
  {
    if from < 0 then -1
    else if from >= |s| then LastIndexOf(s, c, |s| - 1)
    else if s[from] == c then from
    else LastIndexOf(s, c, from - 1)
  }

  /** Searching a prefix backwards from inside it finds what searching the whole string finds. */
  lemma LastIndexOfPrefix(s: string, c: char, end: nat)
    requires end <= |s|
    ensures LastIndexOf(s[..end], c, end - 1) == LastIndexOf(s, c, end - 1)
  {
  }

  // ---------------------------------------------------------------- labels

  /** The dot-separated labels of `s`, each empty label kept: what walking `s` from its end with lastIndexOf('.') yields. */
  function SplitAll(s: string): (r: seq<string>)
    ensures |r| >= 1
    ensures forall k :: 0 <= k < |r| ==> '.' !in r[k]
    decreases |s|
  {
    var i := LastIndexOf(s, '.', |s| - 1);
    if i < 0 then
      assert forall j :: 0 <= j < |s| ==> s[j] != '.';
      [s]
    else
      var last := s[i + 1..];
      assert forall j :: 0 <= j < |last| ==> last[j] == s[i + 1 + j];
      SplitAll(s[..i]) + [last]
  }

  /** The labels joined with dots. */
  function Join(ls: seq<string>): string
    decreases |ls|
  {
    if ls == [] then ""
    else if |ls| == 1 then ls[0]
    else Join(ls[..|ls| - 1]) + "." + ls[|ls| - 1]
  }

  /** Labels that contain no dot. */
  ghost predicate DotFree(ls: seq<string>) {
    forall k :: 0 <= k < |ls| ==> '.' !in ls[k]
  }

  /** Joining the labels of `s` gives `s` back. */
  lemma {:induction false} JoinSplitAll(s: string)
    ensures Join(SplitAll(s)) == s
    decreases |s|
  {
    var i := LastIndexOf(s, '.', |s| - 1);
    if i >= 0 {
      var pre := SplitAll(s[..i]);
      JoinSplitAll(s[..i]);
      assert (pre + [s[i + 1..]])[..|pre + [s[i + 1..]]| - 1] == pre;
      assert s == s[..i] + "." + s[i + 1..];
    }
  }

  /** A last label without a dot is cut off at the dot before it. */
  lemma SplitAllLast(x: string, y: string)
    requires '.' !in y
    ensures SplitAll(x + "." + y) == SplitAll(x) + [y]
  {
    var s := x + "." + y;
    LastDotBefore(x, y);
    assert s[..|x|] == x;
    assert s[|x| + 1..] == y;
  }

  /** The last dot of `x + "." + y`, when `y` has none, is the one between them. */
  lemma LastDotBefore(x: string, y: string)
    requires '.' !in y
    ensures var s := x + "." + y; LastIndexOf(s, '.', |s| - 1) == |x|
  {
    var s := x + "." + y;
    assert s[|x|] == '.';
    forall i | |x| < i < |s| ensures s[i] != '.' {
      assert s[i] == y[i - |x| - 1];
    }
  }

  /** Splitting dot-free labels joined with dots gives the labels back. */
  lemma {:induction false} SplitAllJoin(ls: seq<string>)
    requires ls != [] && DotFree(ls)
    ensures SplitAll(Join(ls)) == ls
    decreases |ls|
  {
    if |ls| > 1 {
      var pre, last := ls[..|ls| - 1], ls[|ls| - 1];
      assert Join(ls) == Join(pre) + "." + last;
      SplitAllLast(Join(pre), last);
      SplitAllJoin(pre);
    }
  }

  lemma {:induction false} JoinAppend(a: seq<string>, b: seq<string>)
    requires a != [] && b != []
    ensures Join(a + b) == Join(a) + "." + Join(b)
    decreases |b|
  {
    if |b| > 1 {
      var b' := b[..|b| - 1];
      assert (a + b)[..|a + b| - 1] == a + b';
      JoinAppend(a, b');
    } else {
      assert (a + b)[..|a + b| - 1] == a;
    }
  }

  /** A dot between two strings separates their labels: the labels of `x + "." + y` are those of `x` followed by those of `y`. */
  lemma SplitAllConcat(x: string, y: string)
    ensures SplitAll(x + "." + y) == SplitAll(x) + SplitAll(y)
  {
    var a, b := SplitAll(x), SplitAll(y);
    JoinSplitAll(x);
    JoinSplitAll(y);
    JoinAppend(a, b);
    SplitAllJoin(a + b);
  }

  /** A string is all dots exactly when every label it splits into is empty. */
  lemma {:induction false} AllDotsSplit(s: string)
    ensures (forall i :: 0 <= i < |s| ==> s[i] == '.') <==> (forall k :: 0 <= k < |SplitAll(s)| ==> SplitAll(s)[k] == "")
    decreases |s|
  {
    var i := LastIndexOf(s, '.', |s| - 1);
    if i >= 0 {
      var pre, last := SplitAll(s[..i]), s[i + 1..];
      assert SplitAll(s) == pre + [last];
      AllDotsSplit(s[..i]);
      if forall j :: 0 <= j < |s| ==> s[j] == '.' {
        assert forall j :: 0 <= j < i ==> s[..i][j] == s[j];
        assert last == "";
        assert forall k :: 0 <= k < |pre| ==> pre[k] == "";
        forall k | 0 <= k < |SplitAll(s)| ensures SplitAll(s)[k] == "" {
          if k < |pre| { assert SplitAll(s)[k] == pre[k]; }
        }
      }
      if forall k :: 0 <= k < |SplitAll(s)| ==> SplitAll(s)[k] == "" {
        forall k | 0 <= k < |pre| ensures pre[k] == "" {
          assert pre[k] == SplitAll(s)[k];
        }
        assert last == SplitAll(s)[|pre|];
        forall j | 0 <= j < |s| ensures s[j] == '.' {
          if j < i { assert s[j] == s[..i][j]; }
        }
      }
    } else {
      assert SplitAll(s) == [s];
      if s != [] { assert s[0] != '.'; assert SplitAll(s)[0] != ""; }
    }
  }

  // ---------------------------------------------------------------- split("\\.")

  /** `ls` with its trailing empty strings removed. */
  function DropTrailingEmpty(ls: seq<string>): (r: seq<string>)
    ensures |r| <= |ls| && r == ls[..|r|]
    ensures r != [] ==> r[|r| - 1] != ""
    ensures forall k :: |r| <= k < |ls| ==> ls[k] == ""
    decreases |ls|
  {
    if ls != [] && ls[|ls| - 1] == "" then DropTrailingEmpty(ls[..|ls| - 1]) else ls
  }

  /**
   * `String.split("\\.")`: a string without a dot is its only piece; otherwise the labels of `s` up to the
   * last non-empty one. No piece holds a dot, and the pieces of a non-empty string never end with an empty one.
   */
  function JavaSplit(s: string): (r: seq<string>)
    ensures forall k :: 0 <= k < |r| ==> '.' !in r[k]
    ensures '.' !in s ==> r == [s]
    ensures '.' in s ==> var ls := SplitAll(s);
      |r| <= |ls| && r == ls[..|r|] && forall k :: |r| <= k < |ls| ==> ls[k] == ""
    ensures s != [] && r != [] ==> r[|r| - 1] != ""
  {
    if LastIndexOf(s, '.', |s| - 1) < 0 then [s] else DropTrailingEmpty(SplitAll(s))
  }

  /** The walk of a string that ends with a dot ends with an empty label. */
  lemma SplitAllTrailingDot(s: string)
    requires s != [] && s[|s| - 1] == '.'
    ensures SplitAll(s)[|SplitAll(s)| - 1] == ""
  {
    assert LastIndexOf(s, '.', |s| - 1) == |s| - 1;
  }

  /** `split` and the lastIndexOf walk agree on a string that does not end with a dot. */
  lemma JavaSplitAgrees(s: string)
    requires s != [] && s[|s| - 1] != '.'
    ensures JavaSplit(s) == SplitAll(s)
  {
    var i := LastIndexOf(s, '.', |s| - 1);
    if i >= 0 {
      assert s[i + 1..] != [] by { assert i != |s| - 1; }
    }
  }

  /** They disagree on a trailing dot: "com." splits to ["com"] but walks as ["com", ""]. */
  lemma TrailingDotDisagrees()
    ensures JavaSplit("com.") == ["com"]
    ensures SplitAll("com.") == ["com", ""]
  {
    assert LastIndexOf("com.", '.', 3) == 3;
    assert LastIndexOf("com", '.', 2) == -1;
    assert "com."[..3] == "com";
    assert "com."[4..] == "";
    assert SplitAll("com") == ["com"];
    assert SplitAll("com.") == ["com", ""];
    assert DropTrailingEmpty(["com", ""]) == DropTrailingEmpty(["com"]);
  }

  /** A non-empty string yields no labels under `split` exactly when it consists of dots only; it never yields one empty label. */
  lemma JavaSplitNoLabels(s: string)
    requires s != []
    ensures JavaSplit(s) == [] <==> forall i :: 0 <= i < |s| ==> s[i] == '.'
    ensures JavaSplit(s) != [""]
  {
    AllDotsSplit(s);
    var i := LastIndexOf(s, '.', |s| - 1);
    if i < 0 {
      assert s[0] != '.';
    } else {
      var ls := SplitAll(s);
      var r := DropTrailingEmpty(ls);
      if r == [] {
        assert forall k :: 0 <= k < |ls| ==> ls[k] == "";
      }
    }
  }

  // ---------------------------------------------------------------- hashCode

  /** The UTF-16 code units of one char: a supplementary char becomes a surrogate pair. */
  function Utf16Units(c: char): seq<int> {
    var v := c as int;
    if v < 0x10000 then [v] else [0xD800 + (v - 0x10000) / 0x400, 0xDC00 + (v - 0x10000) % 0x400]
  }

  /** The UTF-16 code units Java stores for `s`: 16-bit values, one or two per char. */
  function Utf16(s: string): (r: seq<int>)
    ensures |s| <= |r| <= 2 * |s|
    ensures forall k :: 0 <= k < |r| ==> 0 <= r[k] < 0x10000
    decreases |s|
  {
    if s == [] then []
    else
      Utf16UnitsDecode(s[|s| - 1]);
      Utf16(s[..|s| - 1]) + Utf16Units(s[|s| - 1])
  }

  /** The hash loop `h = 31 * h + u` over the units, in `int` arithmetic; `HashUnitsIsPoly` states its value. */
  function HashUnits(u: seq<int>): Int32
    decreases |u|
  {
    if u == [] then 0 else Wrap32(31 * HashUnits(u[..|u| - 1]) + u[|u| - 1])
  }

  /**
   * `String.hashCode`, which is what `Objects.hashCode` returns for a non-null string:
   * `s[0] * 31^(n-1) + ... + s[n-1]` over the UTF-16 units, reduced to an `int` (`HashCodeIsPoly`).
   */
  function HashCode(s: string): Int32 {
    HashUnits(Utf16(s))
  }

  /** A char's code units are 16-bit values, a surrogate pair for a supplementary char, and they decode back to the char. */
  lemma Utf16UnitsDecode(c: char)
    ensures var u := Utf16Units(c);
      && (forall k :: 0 <= k < |u| ==> 0 <= u[k] < 0x10000)
      && (c as int < 0x10000 ==> u == [c as int])
      && (c as int >= 0x10000 ==>
        && |u| == 2 && 0xD800 <= u[0] < 0xDC00 && 0xDC00 <= u[1] < 0xE000
        && 0x10000 + (u[0] - 0xD800) * 0x400 + (u[1] - 0xDC00) == c as int)
  {
  }

  /** The polynomial `sum of u[k] * 31^(|u| - 1 - k)` in unbounded arithmetic. */
  function Poly(u: seq<int>): int
    decreases |u|
  {
    if u == [] then 0 else 31 * Poly(u[..|u| - 1]) + u[|u| - 1]
  }

  /** Wrapping after every step of the hash loop gives the polynomial reduced to 32 bits. */
  lemma {:induction false} HashUnitsIsPoly(u: seq<int>)
    ensures HashUnits(u) == Wrap32(Poly(u))
    decreases |u|
  {
    if u != [] {
      var init := u[..|u| - 1];
      HashUnitsIsPoly(init);
      var h, p, x := HashUnits(init), Poly(init), u[|u| - 1];
      SameWrapScaled(h, p, x);
    }
  }

  /** `hashCode` is the polynomial over the string's UTF-16 units, reduced to an `int`. */
  lemma HashCodeIsPoly(s: string)
    ensures HashCode(s) == Wrap32(Poly(Utf16(s)))
  {
    HashUnitsIsPoly(Utf16(s));
  }

  /** Numbers that wrap to the same `int` still do after `31 * _ + x`. */
  lemma SameWrapScaled(h: Int32, p: int, x: int)
    requires h == Wrap32(p)
    ensures Wrap32(31 * h + x) == Wrap32(31 * p + x)
  {
    var q := (h - p) / 0x1_0000_0000;
    assert h - p == 0x1_0000_0000 * q;
    assert 31 * h + x == (31 * p + x) + 0x1_0000_0000 * (31 * q);
    WrapShift(31 * p + x, 31 * q);
  }

  /** Adding a multiple of 2^32 does not change the wrapped value. */
  lemma WrapShift(a: int, k: int)
    ensures Wrap32(a + 0x1_0000_0000 * k) == Wrap32(a)
  {
    assert (a + 0x1_0000_0000 * k) % 0x1_0000_0000 == a % 0x1_0000_0000;
  }

  /** An unfolding step of `Utf16`: appending a char to a string appends its code units. */
  lemma Utf16Snoc(s: string, c: char)
    ensures Utf16(s + [c]) == Utf16(s) + Utf16Units(c)
  {
    assert (s + [c])[..|s + [c]| - 1] == s;
  }

  /** An unfolding step of `HashUnits`: one more unit is one more step of the hash loop. */
  lemma HashUnitsSnoc(u: seq<int>, x: int)
    ensures HashUnits(u + [x]) == Wrap32(31 * HashUnits(u) + x)
  {
    assert (u + [x])[..|u|] == u;
  }

  /** An unfolding step of `HashCode`: appending a char appends its code units to those the hash runs over. */
  lemma HashCodeSnoc(s: string, c: char)
    ensures HashCode(s + [c]) == HashUnits(Utf16(s) + Utf16Units(c))
  {
    Utf16Snoc(s, c);
  }
}
