/**
  The pieces of the Kotlin standard library and of java.util.regex that the
  scanners rely on: character classes, index searches, `split` on a one-character
  delimiter, `trim`, and dropping empty strings from a list.
 */
module KotlinText {

  datatype Option<T> = None | Some(value: T)

  /** `w` occurs in `s` at index `i`. */
  predicate StartsAt(s: string, i: nat, w: string) {
    i + |w| <= |s| && s[i..i + |w|] == w
  }

  /** Kotlin's `Char.isWhitespace()`, which is what `String.trim()` strips. */
  predicate IsWhitespace(c: char) {
    c == ' ' || ('\t' <= c <= '\r') || ('\U{1C}' <= c <= '\U{1F}') || c == '\U{A0}'
    || c == '\U{1680}' || ('\U{2000}' <= c <= '\U{200A}') || c == '\U{2028}' || c == '\U{2029}'
    || c == '\U{202F}' || c == '\U{205F}' || c == '\U{3000}'
  }

  /** `\s` in a java.util.regex pattern: space, tab, newline, vertical tab, form feed, return. */
  predicate IsRegexSpace(c: char) {
    c == ' ' || ('\t' <= c <= '\r')
  }

  /** The characters `.` does not match in a java.util.regex pattern. */
  predicate IsLineTerminator(c: char) {
    c == '\n' || c == '\r' || c == '\U{85}' || c == '\U{2028}' || c == '\U{2029}'
  }

  /** Where a greedy `\s*` that starts at `i` stops. */
  function SpaceRunEnd(s: string, i: nat): (j: nat)
    requires i <= |s|
    ensures i <= j <= |s|
    ensures forall k :: i <= k < j ==> IsRegexSpace(s[k])
    ensures j == |s| || !IsRegexSpace(s[j])
    decreases |s| - i
  {
    if i < |s| && IsRegexSpace(s[i]) then SpaceRunEnd(s, i + 1) else i
  }

  /** The end of a run of `\s` found by its defining property: the run is unique. */
  lemma SpaceRunEndIs(s: string, i: nat, j: nat)
    requires i <= j <= |s|
    requires forall k :: i <= k < j ==> IsRegexSpace(s[k])
    requires j == |s| || !IsRegexSpace(s[j])
    ensures SpaceRunEnd(s, i) == j
  {
  }

  /** Where a greedy `.*` that starts at `i` stops: the next line terminator, or the end. */
  function LineEnd(s: string, i: nat): (j: nat)
    requires i <= |s|
    ensures i <= j <= |s|
    ensures forall k :: i <= k < j ==> !IsLineTerminator(s[k])
    ensures j == |s| || IsLineTerminator(s[j])
    decreases |s| - i
  {
    if i < |s| && !IsLineTerminator(s[i]) then LineEnd(s, i + 1) else i
  }

  /** The last index of `c` in `s[lo..hi]`. */
  function LastIndexIn(s: string, c: char, lo: nat, hi: nat): (r: Option<nat>)
    requires lo <= hi <= |s|
    ensures r.Some? ==> lo <= r.value < hi && s[r.value] == c
    ensures r.Some? ==> forall k :: r.value < k < hi ==> s[k] != c
    ensures r.None? ==> forall k :: lo <= k < hi ==> s[k] != c
    decreases hi - lo
  {
    if lo == hi then None
    else if s[hi - 1] == c then Some(hi - 1)
    else LastIndexIn(s, c, lo, hi - 1)
  }

  /** Kotlin's `indexOf(c)`: the first index of `c` in `s`. */
  function IndexOf(s: string, c: char): (r: Option<nat>)
    ensures r.Some? ==> r.value < |s| && s[r.value] == c && c !in s[..r.value]
    ensures r.None? ==> c !in s
  {
    if s == [] then None
    else if s[0] == c then Some(0)
    else match IndexOf(s[1..], c)
      case None => None
      case Some(k) => assert s[1..][..k] == s[1..k + 1]; Some(k + 1)
  }

  /** The first occurrence of `c` is at `j`. */
  lemma {:induction false} IndexOfIs(s: string, c: char, j: nat)
    requires j < |s| && s[j] == c && forall k :: 0 <= k < j ==> s[k] != c
    ensures IndexOf(s, c) == Some(j)
  {
    if j > 0 {
      IndexOfIs(s[1..], c, j - 1);
    }
  }

  /**
    Kotlin's `split(d)` for a one-character delimiter: the pieces between
    consecutive occurrences of `d`, empty pieces included.
   */
  function Split(s: string, d: char): (parts: seq<string>)
    ensures |parts| >= 1
    ensures |parts| >= 2 <==> d in s
    ensures forall k :: 0 <= k < |parts| ==> d !in parts[k]
  {
    if s == [] then [[]]
    else
      var rest := Split(s[1..], d);
      if s[0] == d then [[]] + rest else [[s[0]] + rest[0]] + rest[1..]
  }

  /** Kotlin's `joinToString(d)`: the inverse of `Split`. */
  function Join(parts: seq<string>, d: char): string
    requires |parts| >= 1
  {
    if |parts| == 1 then parts[0] else parts[0] + [d] + Join(parts[1..], d)
  }

  lemma {:induction false} JoinSplit(s: string, d: char)
    ensures Join(Split(s, d), d) == s
  {
    if s != [] {
      var c, r := s[0], s[1..];
      assert s == [c] + r;
      JoinSplit(r, d);
      SplitCons(c, r, d);
      JoinCons(c, d, Split(r, d), Split(s, d));
    }
  }

  /** Joining the pieces after a character is put in front gives that character in front of the join. */
  lemma JoinCons(c: char, d: char, rs: seq<string>, ss: seq<string>)
    requires |rs| >= 1
    requires ss == if c == d then [[]] + rs else [[c] + rs[0]] + rs[1..]
    ensures Join(ss, d) == [c] + Join(rs, d)
  {
    if c == d {
      assert ss[1..] == rs;
    } else if |rs| > 1 {
      assert ss[1..] == rs[1..];
    }
  }

  /** Splitting a joined list gives the list back when no piece holds the delimiter. */
  lemma {:induction false} SplitJoin(parts: seq<string>, d: char)
    requires |parts| >= 1
    requires forall k :: 0 <= k < |parts| ==> d !in parts[k]
    ensures Split(Join(parts, d), d) == parts
  {
    if |parts| == 1 {
      SplitNoDelimiter(parts[0], d);
    } else {
      var head, tail := parts[0], parts[1..];
      assert forall k :: 0 <= k < |tail| ==> tail[k] == parts[k + 1];
      SplitJoin(tail, d);
      assert Join(parts, d) == head + [d] + Join(tail, d);
      SplitConcat(head, Join(tail, d), d);
      SplitNoDelimiter(head, d);
      assert parts == [head] + tail;
    }
  }

  lemma {:induction false} SplitNoDelimiter(s: string, d: char)
    requires d !in s
    ensures Split(s, d) == [s]
  {
    if s != [] {
      SplitNoDelimiter(s[1..], d);
      assert [s[0]] + s[1..] == s;
    }
  }

  /** How `split` treats the first character. */
  lemma SplitCons(c: char, r: string, d: char)
    ensures Split([c] + r, d) ==
      if c == d then [[]] + Split(r, d) else [[c] + Split(r, d)[0]] + Split(r, d)[1..]
  {
    assert ([c] + r)[1..] == r;
  }

  /** Splitting distributes over a concatenation at a delimiter. */
  lemma {:induction false} SplitConcat(a: string, b: string, d: char)
    ensures Split(a + [d] + b, d) == Split(a, d) + Split(b, d)
  {
    if a == [] {
      assert a + [d] + b == [d] + b;
      SplitCons(d, b, d);
    } else {
      SplitConcat(a[1..], b, d);
      SplitConcatStep(a[0], a[1..], b, d);
      assert [a[0]] + a[1..] == a;
    }
  }

  /** The inductive step of `SplitConcat`: one more character in front. */
  lemma SplitConcatStep(c: char, a: string, b: string, d: char)
    requires Split(a + [d] + b, d) == Split(a, d) + Split(b, d)
    ensures Split([c] + a + [d] + b, d) == Split([c] + a, d) + Split(b, d)
  {
    var x := a + [d] + b;
    assert [c] + a + [d] + b == [c] + x;
    SplitCons(c, a, d);
    SplitCons(c, x, d);
    PiecesAfterCons(c, d, Split([c] + x, d), Split([c] + a, d), Split(a, d), Split(b, d));
  }

  /** Putting a character in front of the pieces `ra` commutes with appending the pieces `rb`. */
  lemma PiecesAfterCons(c: char, d: char, sx: seq<string>, sa: seq<string>, ra: seq<string>, rb: seq<string>)
    requires |ra| >= 1
    requires sx == if c == d then [[]] + (ra + rb) else [[c] + (ra + rb)[0]] + (ra + rb)[1..]
    requires sa == if c == d then [[]] + ra else [[c] + ra[0]] + ra[1..]
    ensures sx == sa + rb
  {
    if c == d {
      assert [[]] + (ra + rb) == ([[]] + ra) + rb;
    } else {
      var h := [c] + ra[0];
      assert (ra + rb)[0] == ra[0];
      assert (ra + rb)[1..] == ra[1..] + rb;
      assert [h] + (ra[1..] + rb) == ([h] + ra[1..]) + rb;
    }
  }

  /** The first piece ends at the first delimiter and the others are the split of what follows. */
  lemma SplitAtFirst(s: string, d: char, i: nat)
    requires i < |s| && s[i] == d && d !in s[..i]
    ensures Split(s, d) == [s[..i]] + Split(s[i + 1..], d)
  {
    assert s == s[..i] + [d] + s[i + 1..];
    SplitConcat(s[..i], s[i + 1..], d);
    SplitNoDelimiter(s[..i], d);
  }

  /** The first piece is everything before the first delimiter. */
  lemma {:induction false} SplitHead(s: string, d: char)
    ensures IndexOf(s, d).None? ==> Split(s, d)[0] == s
    ensures IndexOf(s, d).Some? ==> Split(s, d)[0] == s[..IndexOf(s, d).value]
  {
    match IndexOf(s, d)
    case None => SplitNoDelimiter(s, d);
    case Some(i) => SplitAtFirst(s, d, i);
  }

  /** Kotlin's `trimStart()`. */
  function TrimStart(s: string): (r: string)
    ensures |r| <= |s| && r == s[|s| - |r|..]
    ensures forall k :: 0 <= k < |s| - |r| ==> IsWhitespace(s[k])
    ensures r == [] || !IsWhitespace(r[0])
  {
    if s != [] && IsWhitespace(s[0]) then TrimStart(s[1..]) else s
  }

  /** Kotlin's `trimEnd()`. */
  function TrimEnd(s: string): (r: string)
    ensures |r| <= |s| && r == s[..|r|]
    ensures forall k :: |r| <= k < |s| ==> IsWhitespace(s[k])
    ensures r == [] || !IsWhitespace(r[|r| - 1])
  {
    if s != [] && IsWhitespace(s[|s| - 1]) then TrimEnd(s[..|s| - 1]) else s
  }

  /** Kotlin's `trim()`: drops whitespace at both ends. */
  function Trim(s: string): string {
    TrimEnd(TrimStart(s))
  }

  /** Kotlin's `filter { it.isNotEmpty() }`. */
  function NonEmpty(xs: seq<string>): (r: seq<string>)
    ensures |r| <= |xs|
    ensures forall k :: 0 <= k < |r| ==> r[k] != [] && r[k] in xs
    ensures forall x :: x in xs && x != [] ==> x in r
  {
    if xs == [] then []
    else if xs[0] == [] then NonEmpty(xs[1..])
    else [xs[0]] + NonEmpty(xs[1..])
  }

  lemma {:induction false} NonEmptyConcat(xs: seq<string>, ys: seq<string>)
    ensures NonEmpty(xs + ys) == NonEmpty(xs) + NonEmpty(ys)
  {
    if xs == [] {
      assert xs + ys == ys;
    } else {
      assert (xs + ys)[0] == xs[0];
      assert (xs + ys)[1..] == xs[1..] + ys;
      NonEmptyConcat(xs[1..], ys);
    }
  }

  /** `s` and `t` have the same first `n` characters. */
  predicate Agree(s: string, t: string, n: nat) {
    n <= |s| && n <= |t| && s[..n] == t[..n]
  }

  lemma AgreeAt(s: string, t: string, n: nat)
    requires Agree(s, t, n)
    ensures forall k :: 0 <= k < n ==> s[k] == t[k]
  {
    forall k | 0 <= k < n ensures s[k] == t[k] {
      assert s[k] == s[..n][k] && t[k] == t[..n][k];
    }
  }

  lemma StartsAtLocal(s: string, t: string, n: nat, i: nat, w: string)
    requires Agree(s, t, n) && i + |w| <= n
    ensures StartsAt(s, i, w) == StartsAt(t, i, w)
  {
    assert s[i..i + |w|] == s[..n][i..i + |w|];
    assert t[i..i + |w|] == t[..n][i..i + |w|];
  }

  lemma {:induction false} SpaceRunEndLocal(s: string, t: string, n: nat, i: nat)
    requires Agree(s, t, n) && i <= n && SpaceRunEnd(s, i) < n
    ensures SpaceRunEnd(t, i) == SpaceRunEnd(s, i)
    decreases n - i
  {
    AgreeAt(s, t, n);
    if IsRegexSpace(s[i]) {
      SpaceRunEndLocal(s, t, n, i + 1);
    }
  }

  lemma {:induction false} LineEndLocal(s: string, t: string, n: nat, i: nat)
    requires Agree(s, t, n) && i <= n
    ensures LineEnd(s, i) < n ==> LineEnd(t, i) == LineEnd(s, i)
    ensures LineEnd(s, i) >= n ==> LineEnd(t, i) >= n
    decreases n - i
  {
    AgreeAt(s, t, n);
    if i < n && !IsLineTerminator(s[i]) {
      LineEndLocal(s, t, n, i + 1);
    }
  }

  lemma {:induction false} LastIndexInLocal(s: string, t: string, n: nat, c: char, lo: nat, hi: nat)
    requires Agree(s, t, n) && lo <= hi <= n
    ensures LastIndexIn(s, c, lo, hi) == LastIndexIn(t, c, lo, hi)
    decreases hi - lo
  {
    AgreeAt(s, t, n);
    if lo < hi {
      LastIndexInLocal(s, t, n, c, lo, hi - 1);
    }
  }
}
