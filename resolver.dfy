/**
  DependencyResolverImpl.getDependencyNames (src/main/kotlin/domain/common/DependencyResolverImpl.kt):
  from a class name to the type names of its primary-constructor parameters.
  The file-content provider is a function from a class name to the class's text,
  if any; the result records the lookups made through it.
 */
module DependencyResolution {

  import opened KotlinText
  import opened Model
  import Util

  /** A match of `class\s*<Name>\s*\(.*\)`: the text `s[start..end]`, the name at `nameAt`, the `(` at `open`. */
  datatype ClassMatch = ClassMatch(start: nat, nameAt: nat, open: nat, end: nat)

  /** What a match of `class\s*<Name>\s*\(.*\)` at `m.start` is made of. */
  ghost predicate IsClassMatch(s: string, name: string, m: ClassMatch) {
    && m.start + 5 <= m.nameAt && m.nameAt + |name| <= m.open && m.open + 1 < m.end <= |s|
    && StartsAt(s, m.start, "class")
    && (forall k :: m.start + 5 <= k < m.nameAt ==> IsRegexSpace(s[k]))
    && StartsAt(s, m.nameAt, name)
    && (forall k :: m.nameAt + |name| <= k < m.open ==> IsRegexSpace(s[k]))
    && s[m.open] == '(' && s[m.end - 1] == ')'
    && (forall k :: m.open < k < m.end ==> !IsLineTerminator(s[k]))
  }

  /** With the first `\s*` ending at `k`: the `(` reached through `<Name>\s*\(`, if any. */
  function OpenParenAfter(s: string, k: nat, name: string): (r: Option<nat>)
    requires k <= |s|
    ensures r.Some? ==> StartsAt(s, k, name) && k + |name| <= r.value < |s| && s[r.value] == '('
    ensures r.Some? ==> forall j :: k + |name| <= j < r.value ==> IsRegexSpace(s[j])
  {
    if StartsAt(s, k, name) then
      var p := SpaceRunEnd(s, k + |name|);
      if p < |s| && s[p] == '(' then Some(p) else None
    else None
  }

  /** `.*\)` after the `(` at `p`: one past the last `)` before the end of the line. */
  function CloseParenEnd(s: string, p: nat): (r: Option<nat>)
    requires p < |s|
    ensures r.Some? ==> p + 1 < r.value <= |s| && s[r.value - 1] == ')'
    ensures r.Some? ==> forall k :: p < k < r.value ==> !IsLineTerminator(s[k])
    ensures r.Some? ==> r.value <= LineEnd(s, p + 1)
    ensures r.Some? ==> forall k :: r.value <= k < LineEnd(s, p + 1) ==> s[k] != ')'
    ensures r.None? ==> forall k :: p < k < LineEnd(s, p + 1) ==> s[k] != ')'
  {
    match LastIndexIn(s, ')', p + 1, LineEnd(s, p + 1))
    case None => None
    case Some(c) => Some(c + 1)
  }

  /** The rest of the pattern once `class` matched at `start` and the first `\s*` ends at `k`. */
  function TryAt(s: string, name: string, start: nat, k: nat): (r: Option<ClassMatch>)
    requires start + 5 <= k <= |s| && StartsAt(s, start, "class")
    requires forall j :: start + 5 <= j < k ==> IsRegexSpace(s[j])
    ensures r.Some? ==> IsClassMatch(s, name, r.value) && r.value.start == start && r.value.nameAt == k
  {
    var open := OpenParenAfter(s, k, name);
    if open.Some? && CloseParenEnd(s, open.value).Some? then
      Some(ClassMatch(start, k, open.value, CloseParenEnd(s, open.value).value))
    else None
  }

  /**
    The first `\s*` is greedy: its end `k` is tried from the longest run of
    spaces down to the shortest, and the first end that lets the rest match wins.
   */
  function TrySpaces(s: string, name: string, start: nat, k: nat): (r: Option<ClassMatch>)
    requires start + 5 <= k <= |s| && StartsAt(s, start, "class")
    requires forall j :: start + 5 <= j < k ==> IsRegexSpace(s[j])
    ensures r.Some? ==> IsClassMatch(s, name, r.value) && r.value.start == start && r.value.nameAt <= k
    decreases k
  {
    if TryAt(s, name, start, k).Some? then TryAt(s, name, start, k)
    else if k == start + 5 then None
    else TrySpaces(s, name, start, k - 1)
  }

  /** The match of `class\s*<Name>\s*\(.*\)` that starts at `i`, if there is one. */
  function MatchClassAt(s: string, name: string, i: nat): (r: Option<ClassMatch>)
    requires i <= |s|
    ensures r.Some? ==> IsClassMatch(s, name, r.value) && r.value.start == i
  {
    if StartsAt(s, i, "class") then TrySpaces(s, name, i, SpaceRunEnd(s, i + 5)) else None
  }

  /** The first index from `i` to `n` at which `at` gives a match. */
  function FirstIndex(at: nat -> Option<ClassMatch>, i: nat, n: nat): (r: Option<nat>)
    ensures r.Some? ==> i <= r.value <= n && at(r.value).Some?
    decreases n + 1 - i
  {
    if i > n then None
    else if at(i).Some? then Some(i)
    else FirstIndex(at, i + 1, n)
  }

  /** No index before the one found gives a match, and none found means none from `i` to `n` does. */
  lemma {:induction false} FirstIndexLeftmost(at: nat -> Option<ClassMatch>, i: nat, n: nat)
    ensures var r := FirstIndex(at, i, n);
      r.Some? ==> forall j :: i <= j < r.value ==> at(j).None?
    ensures FirstIndex(at, i, n).None? ==> forall j :: i <= j <= n ==> at(j).None?
    decreases n + 1 - i
  {
    if i <= n && at(i).None? {
      FirstIndexLeftmost(at, i + 1, n);
    }
  }

  /** An index that gives a match, with none before it, is the one found. */
  lemma {:induction false} FirstIndexIs(at: nat -> Option<ClassMatch>, i: nat, j: nat, n: nat)
    requires i <= j <= n && at(j).Some?
    requires forall k :: i <= k < j ==> at(k).None?
    ensures FirstIndex(at, i, n) == Some(j)
    decreases j - i
  {
    if i < j {
      FirstIndexIs(at, i + 1, j, n);
    }
  }

  /** The declaration matcher, index by index. */
  function ClassMatcher(s: string, name: string): nat -> Option<ClassMatch> {
    (j: nat) => if j <= |s| then MatchClassAt(s, name, j) else None
  }

  /** Kotlin's `Regex.find`: the match with the leftmost start at or after `i`. */
  function FindClass(s: string, name: string, i: nat): (r: Option<ClassMatch>)
    requires i <= |s|
    ensures r.Some? ==> i <= r.value.start <= |s| && MatchClassAt(s, name, r.value.start) == r
  {
    match FirstIndex(ClassMatcher(s, name), i, |s|)
    case None => None
    case Some(j) => MatchClassAt(s, name, j)
  }

  /** The match found is the leftmost one, and none found means no start matches. */
  lemma FindClassLeftmost(s: string, name: string, i: nat)
    requires i <= |s|
    ensures var r := FindClass(s, name, i);
      r.Some? ==> forall j :: i <= j < r.value.start ==> MatchClassAt(s, name, j).None?
    ensures FindClass(s, name, i).None? ==> forall j :: i <= j <= |s| ==> MatchClassAt(s, name, j).None?
  {
    var at := ClassMatcher(s, name);
    FirstIndexLeftmost(at, i, |s|);
    forall j | i <= j <= |s|
      ensures at(j) == MatchClassAt(s, name, j)
    {
    }
  }

  /** A start that matches, with no match before it, is the one found. */
  lemma FindClassIs(s: string, name: string, i: nat, j: nat)
    requires i <= j <= |s| && MatchClassAt(s, name, j).Some?
    requires forall k :: i <= k < j ==> MatchClassAt(s, name, k).None?
    ensures FindClass(s, name, i) == MatchClassAt(s, name, j)
  {
    var at := ClassMatcher(s, name);
    forall k | i <= k <= j
      ensures at(k) == MatchClassAt(s, name, k)
    {
    }
    FirstIndexIs(at, i, j, |s|);
  }

  /** What a declaration found is made of. */
  lemma FoundMatch(s: string, name: string, m: ClassMatch)
    requires FindClass(s, name, 0) == Some(m)
    ensures IsClassMatch(s, name, m)
  {
  }

  /** Every `class <Name> (...)` match has the pieces `TryAt` looks for at its own name. */
  lemma TryAtMatch(s: string, name: string, m: ClassMatch)
    requires IsClassMatch(s, name, m)
    ensures TryAt(s, name, m.start, m.nameAt).Some?
  {
    assert !IsRegexSpace(s[m.open]);
    assert OpenParenAfter(s, m.nameAt, name) == Some(m.open);
    assert !IsLineTerminator(s[m.end - 1]);
    assert s[m.end - 1] == ')';
  }

  /** Backing off the `\s*` after `class` from `k` reaches the name of any match that starts there. */
  lemma {:induction false} TrySpacesReaches(s: string, name: string, m: ClassMatch, k: nat)
    requires IsClassMatch(s, name, m) && m.nameAt <= k <= |s|
    requires forall j :: m.start + 5 <= j < k ==> IsRegexSpace(s[j])
    ensures TrySpaces(s, name, m.start, k).Some?
    decreases k
  {
    if k == m.nameAt {
      TryAtMatch(s, name, m);
    } else if TryAt(s, name, m.start, k).None? {
      TrySpacesReaches(s, name, m, k - 1);
    }
  }

  /** The matcher misses no match: wherever `class <Name> (...)` starts, a match is found there. */
  lemma MatchClassAtComplete(s: string, name: string, m: ClassMatch)
    requires IsClassMatch(s, name, m)
    ensures MatchClassAt(s, name, m.start).Some?
  {
    var k := SpaceRunEnd(s, m.start + 5);
    assert m.nameAt <= k;
    TrySpacesReaches(s, name, m, k);
  }

  /** The search misses no declaration: one is found, and it starts no later than any match. */
  lemma FindClassComplete(s: string, name: string, m: ClassMatch)
    requires IsClassMatch(s, name, m)
    ensures FindClass(s, name, 0).Some? && FindClass(s, name, 0).value.start <= m.start
  {
    MatchClassAtComplete(s, name, m);
    FindClassLeftmost(s, name, 0);
  }

  /** Nothing is found exactly when the text holds no `class <Name> (...)` at all. */
  lemma FindClassNone(s: string, name: string)
    ensures FindClass(s, name, 0).None? <==> forall m :: !IsClassMatch(s, name, m)
  {
    if FindClass(s, name, 0).Some? {
      FoundMatch(s, name, FindClass(s, name, 0).value);
    } else {
      forall m | IsClassMatch(s, name, m)
        ensures false
      {
        FindClassComplete(s, name, m);
      }
    }
  }

  /** `value.split("(")[1]` cut before its first `)`; no `)` there is the negative `substring` bound. */
  function ParameterText(value: string): Result<string>
    requires '(' in value
  {
    var piece := Split(value, '(')[1];
    match IndexOf(piece, ')')
    case None => Err(UnterminatedParameterList)
    case Some(q) => Ok(piece[..q])
  }

  /** `split(":").getOrNull(1)?.trim()` on one parameter fragment. */
  function TypeNameOf(fragment: string): (r: Option<string>)
    ensures r.Some? <==> ':' in fragment
  {
    var parts := Split(fragment, ':');
    if |parts| >= 2 then Some(Trim(parts[1])) else None
  }

  /** `mapNotNull` of `TypeNameOf` over the fragments. */
  function TypeNames(fragments: seq<string>): (names: seq<string>)
    ensures |names| <= |fragments|
  {
    if fragments == [] then []
    else
      match TypeNameOf(fragments[0])
      case None => TypeNames(fragments[1..])
      case Some(t) => [t] + TypeNames(fragments[1..])
  }

  /** From the text between the parentheses to the dependency names. */
  function NamesFromParameters(raw: string): seq<string> {
    TypeNames(NonEmpty(Split(raw, ',')))
  }

  /** The parameter text of the first declaration found in the class text. */
  function ParameterListText(text: string, className: string): (r: Result<string>)
    ensures r == Err(MissingConstructorDeclaration) <==> FindClass(text, className, 0).None?
  {
    ParameterTextOf(text, FindClass(text, className, 0))
  }

  /** A declaration's text, from `class` to its last `)`, holds its `(`. */
  predicate Declares(text: string, found: Option<ClassMatch>) {
    found.Some? ==>
      found.value.start <= found.value.open < found.value.end <= |text| && text[found.value.open] == '('
  }

  /** The parameter text once the declaration is known: none, none to cut. */
  function ParameterTextOf(text: string, found: Option<ClassMatch>): (r: Result<string>)
    requires Declares(text, found)
    ensures r == Err(MissingConstructorDeclaration) <==> found.None?
  {
    match found
    case None => Err(MissingConstructorDeclaration)
    case Some(m) =>
      var value := text[m.start..m.end];
      assert value[m.open - m.start] == '(';
      ParameterText(value)
  }

  /** Everything after the lookup: the class text with newlines already removed. */
  function NamesInText(text: string, className: string): (r: Result<seq<string>>)
    ensures r == Err(MissingConstructorDeclaration) <==> FindClass(text, className, 0).None?
  {
    match ParameterListText(text, className)
    case Err(f) => Err(f)
    case Ok(raw) => Ok(NamesFromParameters(raw))
  }

  /** The `!!` fails, and the names are a missing declaration, exactly when the text holds no `class <Name> (...)`. */
  lemma MissingDeclaration(text: string, className: string)
    ensures NamesInText(text, className) == Err(MissingConstructorDeclaration) <==>
      forall m :: !IsClassMatch(text, className, m)
  {
    FindClassNone(text, className);
  }

  /** The outcome of `getDependencyNames` and the class names the provider was asked for. */
  datatype Lookup = Lookup(names: Result<seq<string>>, queries: seq<string>)

  /** `DependencyResolverImpl.getDependencyNames(className)` over the provider `provider`. */
  function GetDependencyNames(provider: string -> Option<string>, className: string): (r: Lookup)
    ensures r.queries == [className]
    ensures provider(className).None? ==> r.names == Ok([])
    ensures provider(className).Some? ==>
      r.names == NamesInText(Util.Delete(provider(className).value, "\n"), className)
  {
    match provider(className)
    case None => Lookup(Ok([]), [className])
    case Some(content) => Lookup(NamesInText(Util.Delete(content, "\n"), className), [className])
  }

  /** A class name as the parser hands it over: trimmed, without parentheses. */
  predicate PlainName(name: string) {
    name != [] && !IsRegexSpace(name[0]) && '(' !in name && ')' !in name
  }

  /** Shorter runs of spaces cannot be followed by a name that does not start with a space. */
  lemma {:induction false} TrySpacesShorter(s: string, name: string, start: nat, k: nat)
    requires start + 5 <= k < |s| && StartsAt(s, start, "class")
    requires forall j :: start + 5 <= j <= k ==> IsRegexSpace(s[j])
    requires name != [] && !IsRegexSpace(name[0])
    ensures TrySpaces(s, name, start, k).None?
    decreases k
  {
    assert k + |name| <= |s| ==> s[k..k + |name|][0] == s[k];
    assert !StartsAt(s, k, name);
    if k > start + 5 {
      TrySpacesShorter(s, name, start, k - 1);
    }
  }

  /** For a name that does not start with a space, only the longest run of spaces is tried. */
  lemma NoBacktracking(s: string, name: string, i: nat)
    requires i <= |s| && name != [] && !IsRegexSpace(name[0])
    ensures MatchClassAt(s, name, i) ==
      if StartsAt(s, i, "class") then TryAt(s, name, i, SpaceRunEnd(s, i + 5)) else None
  {
    if StartsAt(s, i, "class") {
      var w := SpaceRunEnd(s, i + 5);
      if TryAt(s, name, i, w).None? && w > i + 5 {
        TrySpacesShorter(s, name, i, w - 1);
      }
    }
  }

  /** The `(` after a name is found alike in two texts that agree up to a `)`. */
  lemma OpenParenAfterLocal(s: string, t: string, name: string, n: nat, w: nat)
    requires Agree(s, t, n) && 0 < n && s[n - 1] == ')' && w < n
    requires PlainName(name)
    ensures OpenParenAfter(s, w, name) == OpenParenAfter(t, w, name)
    ensures OpenParenAfter(s, w, name).Some? ==> OpenParenAfter(s, w, name).value < n - 1
  {
    AgreeAt(s, t, n);
    if w + |name| <= n {
      StartsAtLocal(s, t, n, w, name);
    } else {
      assert w + |name| <= |s| ==> s[w..w + |name|][n - 1 - w] == ')';
      assert w + |name| <= |t| ==> t[w..w + |name|][n - 1 - w] == ')';
    }
    if StartsAt(s, w, name) {
      assert s[w..w + |name|][|name| - 1] == name[|name| - 1];
      assert w + |name| <= n - 1;
      SpaceRunEndLocal(s, t, n, w + |name|);
    }
  }

  /** The closing `)` of `.*\)` is found alike in two texts that agree up to a `)`. */
  lemma CloseParenEndLocal(s: string, t: string, n: nat, p: nat)
    requires Agree(s, t, n) && 0 < n && s[n - 1] == ')' && p < n - 1
    ensures CloseParenEnd(s, p).Some? <==> CloseParenEnd(t, p).Some?
  {
    AgreeAt(s, t, n);
    LineEndLocal(s, t, n, p + 1);
    var ls := LineEnd(s, p + 1);
    if ls < n {
      LastIndexInLocal(s, t, n, ')', p + 1, ls);
    } else {
      assert LastIndexIn(s, ')', p + 1, ls).Some?;
      assert LastIndexIn(t, ')', p + 1, LineEnd(t, p + 1)).Some?;
    }
  }

  /**
    Whether a match starts at `j`, and where its `(` is, depends only on the
    text up to a `)` that comes after the keyword.
   */
  lemma MatchClassAtLocal(s: string, t: string, name: string, n: nat, j: nat)
    requires Agree(s, t, n) && 0 < n && s[n - 1] == ')' && j + 5 < n
    requires PlainName(name)
    ensures MatchClassAt(s, name, j).Some? <==> MatchClassAt(t, name, j).Some?
    ensures MatchClassAt(s, name, j).Some? ==>
      MatchClassAt(s, name, j).value.open == MatchClassAt(t, name, j).value.open
  {
    AgreeAt(s, t, n);
    NoBacktracking(s, name, j);
    NoBacktracking(t, name, j);
    StartsAtLocal(s, t, n, j, "class");
    if StartsAt(s, j, "class") {
      var w := SpaceRunEnd(s, j + 5);
      SpaceRunEndLocal(s, t, n, j + 5);
      OpenParenAfterLocal(s, t, name, n, w);
      if OpenParenAfter(s, w, name).Some? {
        CloseParenEndLocal(s, t, n, OpenParenAfter(s, w, name).value);
      }
    }
  }

  /** `s[c]` is the first `)` after index `o`. */
  predicate ClosesAt(s: string, o: nat, c: nat) {
    o < c < |s| && s[c] == ')' && ')' !in s[o + 1..c]
  }

  /** The `(` of the declaration found and the first `)` after it. */
  datatype Span = Span(open: nat, close: nat)

  ghost function ParameterSpan(text: string, className: string): (r: Option<Span>)
    ensures r.Some? ==> ClosesAt(text, r.value.open, r.value.close)
  {
    SpanOf(text, FindClass(text, className, 0))
  }

  /** The span from the `(` of a known declaration to the first `)` after it. */
  ghost function SpanOf(text: string, found: Option<ClassMatch>): (r: Option<Span>)
    ensures r.Some? ==> found.Some? && found.value.open == r.value.open
    ensures r.Some? ==> ClosesAt(text, r.value.open, r.value.close)
  {
    match found
    case None => None
    case Some(m) =>
      if m.open < |text| then
        var rest := text[m.open + 1..];
        match IndexOf(rest, ')')
        case None => None
        case Some(q) =>
          assert rest[..q] == text[m.open + 1..m.open + 1 + q];
          Some(Span(m.open, m.open + 1 + q))
      else None
  }

  /** A match has a span, which closes inside it. */
  lemma SpanOfMatch(text: string, m: ClassMatch)
    requires m.open + 1 < m.end <= |text| && text[m.end - 1] == ')'
    ensures SpanOf(text, Some(m)).Some? && SpanOf(text, Some(m)).value.close < m.end
  {
    var rest := text[m.open + 1..];
    assert rest[m.end - 2 - m.open] == ')';
  }

  /** There is a span exactly when a declaration is found. */
  lemma DeclarationSpan(text: string, className: string)
    ensures ParameterSpan(text, className).None? <==> FindClass(text, className, 0).None?
  {
    var f := FindClass(text, className, 0);
    if f.Some? {
      FoundMatch(text, className, f.value);
      SpanOfMatch(text, f.value);
    }
  }

  /** The declaration found and its span, named. */
  lemma FoundSpan(text: string, className: string, sp: Span) returns (m: ClassMatch)
    requires ParameterSpan(text, className) == Some(sp)
    ensures FindClass(text, className, 0) == Some(m) && SpanOf(text, Some(m)) == Some(sp)
    ensures IsClassMatch(text, className, m) && sp.open == m.open && sp.close < m.end
  {
    m := FindClass(text, className, 0).value;
    FoundMatch(text, className, m);
    SpanOfMatch(text, m);
  }


  /** A `(` before the first `)`: the piece after the first `(` has no `)`. */
  lemma PieceCutOpen(x: string, q: nat)
    requires q < |x| && x[q] == ')' && ')' !in x[..q] && '(' in x[..q]
    ensures IndexOf(Split(x, '(')[0], ')').None?
  {
    SplitHead(x, '(');
    var i := IndexOf(x, '(').value;
    assert forall k :: 0 <= k < q ==> x[k] == x[..q][k];
    assert forall k :: 0 <= k < i ==> x[k] == x[..i][k];
    assert i < q;
    assert forall k :: 0 <= k < i ==> x[..i][k] != ')';
  }

  /** No `(` before the first `)`: the piece after the first `(` is cut at that `)`. */
  lemma PieceCutClosed(x: string, q: nat)
    requires q < |x| && x[q] == ')' && ')' !in x[..q] && '(' !in x[..q]
    ensures IndexOf(Split(x, '(')[0], ')') == Some(q)
    ensures Split(x, '(')[0][..q] == x[..q]
  {
    SplitHead(x, '(');
    forall k | 0 <= k < q
      ensures x[k] != '('
    {
      assert x[..q][k] == x[k];
    }
    var f := IndexOf(x, '(');
    if f.Some? {
      CloseInPrefix(x, f.value, q);
    } else {
      assert x[..|x|] == x;
      CloseInPrefix(x, |x|, q);
    }
  }

  /** A prefix that reaches past the first `)` still has it first. */
  lemma CloseInPrefix(x: string, len: nat, q: nat)
    requires q < len <= |x| && x[q] == ')' && ')' !in x[..q]
    ensures IndexOf(x[..len], ')') == Some(q) && x[..len][..q] == x[..q]
  {
    var piece := x[..len];
    forall k | 0 <= k < q
      ensures piece[k] != ')'
    {
      assert piece[k] == x[..q][k];
    }
    IndexOfIs(piece, ')', q);
  }

  /** `ParameterText` when the first `(` of the match text is at `at` and a `(` precedes the next `)`. */
  lemma ParameterTextOpen(value: string, at: nat, q: nat)
    requires at < |value| && value[at] == '(' && '(' !in value[..at]
    requires at + 1 + q < |value| && value[at + 1 + q] == ')' && ')' !in value[at + 1..at + 1 + q]
    requires '(' in value[at + 1..at + 1 + q]
    ensures ParameterText(value) == Err(UnterminatedParameterList)
  {
    SplitAtFirst(value, '(', at);
    var x := value[at + 1..];
    assert x[..q] == value[at + 1..at + 1 + q];
    PieceCutOpen(x, q);
  }

  /** `ParameterText` when the first `(` of the match text is at `at` and no `(` precedes the next `)`. */
  lemma ParameterTextClosed(value: string, at: nat, q: nat)
    requires at < |value| && value[at] == '(' && '(' !in value[..at]
    requires at + 1 + q < |value| && value[at + 1 + q] == ')' && ')' !in value[at + 1..at + 1 + q]
    requires '(' !in value[at + 1..at + 1 + q]
    ensures ParameterText(value) == Ok(value[at + 1..at + 1 + q])
  {
    SplitAtFirst(value, '(', at);
    var x := value[at + 1..];
    assert x[..q] == value[at + 1..at + 1 + q];
    PieceCutClosed(x, q);
  }

  /** Nothing before the `(` of a match is a `(` when the name has none. */
  lemma NoParenBeforeOpen(text: string, className: string, m: ClassMatch)
    requires IsClassMatch(text, className, m) && '(' !in className
    ensures '(' !in text[m.start..m.open]
  {
    forall i | m.start <= i < m.open ensures text[i] != '(' {
      if i < m.start + 5 {
        assert text[i] == text[m.start..m.start + 5][i - m.start];
      } else if m.nameAt <= i < m.nameAt + |className| {
        assert text[i] == text[m.nameAt..m.nameAt + |className|][i - m.nameAt];
      }
    }
  }

  /** The match text, its first `(`, and the parameter text inside it. */
  lemma MatchTextShape(text: string, className: string, m: ClassMatch, close: nat)
    requires '(' !in className
    requires IsClassMatch(text, className, m)
    requires m.open < close < m.end && text[close] == ')'
    ensures var value := text[m.start..m.end];
      var at := m.open - m.start;
      var q := close - m.open - 1;
      && at < |value| && value[at] == '(' && '(' !in value[..at]
      && at + 1 + q < |value| && value[at + 1 + q] == ')'
      && value[at + 1..at + 1 + q] == text[m.open + 1..close]
  {
    NoParenBeforeOpen(text, className, m);
    var value := text[m.start..m.end];
    var at := m.open - m.start;
    var q := close - m.open - 1;
    assert value[..at] == text[m.start..m.open];
    assert value[at] == text[m.open];
    assert value[at + 1 + q] == text[close];
    SliceOfSlice(text, m.start, m.end, at + 1, at + 1 + q);
  }

  lemma SliceOfSlice(s: string, i: nat, j: nat, a: nat, b: nat)
    requires i <= j <= |s| && a <= b <= j - i
    ensures s[i..j][a..b] == s[i + a..i + b]
  {
    assert forall k :: 0 <= k < b - a ==> s[i..j][a..b][k] == s[i + a + k];
  }

  /**
    The parameter text is what lies between the `(` of the declaration and the
    first `)` after it ...
   */
  lemma ParametersBetweenParens(text: string, className: string, sp: Span)
    requires '(' !in className
    requires ParameterSpan(text, className) == Some(sp)
    requires '(' !in text[sp.open + 1..sp.close]
    ensures ParameterListText(text, className) == Ok(text[sp.open + 1..sp.close])
  {
    ParameterListTextBySpan(text, className, sp);
  }


  /** ... and a `(` in between makes the `substring` bound negative. */
  lemma ParenInsideParameters(text: string, className: string, sp: Span)
    requires '(' !in className
    requires ParameterSpan(text, className) == Some(sp)
    requires '(' in text[sp.open + 1..sp.close]
    ensures ParameterListText(text, className) == Err(UnterminatedParameterList)
  {
    ParameterListTextBySpan(text, className, sp);
  }


  /** Two texts that agree up to a `)` and hold no `)` from `o` to it agree on the first `)` after `o`. */
  lemma SameClose(s: string, t: string, o: nat, c: nat, c': nat)
    requires ClosesAt(s, o, c) && ClosesAt(t, o, c') && Agree(s, t, c + 1)
    ensures c' == c && t[o + 1..c] == s[o + 1..c]
  {
    AgreeAt(s, t, c + 1);
    assert forall k :: o < k < c ==> s[k] == s[o + 1..c][k - o - 1];
    assert forall k :: o < k < c' ==> t[k] == t[o + 1..c'][k - o - 1];
    assert t[o + 1..c] == s[o + 1..c];
  }

  /** Two texts that agree up to a `)` after the declaration's `(` find the same declaration. */
  lemma SameDeclaration(s: string, t: string, className: string, n: nat, m: ClassMatch) returns (m': ClassMatch)
    requires PlainName(className)
    requires FindClass(s, className, 0) == Some(m)
    requires Agree(s, t, n) && 0 < n && s[n - 1] == ')' && m.open < n - 1
    ensures FindClass(t, className, 0) == Some(m') && m'.open == m.open
  {
    FindClassLeftmost(s, className, 0);
    forall j | 0 <= j <= m.start
      ensures (MatchClassAt(s, className, j).Some? <==> MatchClassAt(t, className, j).Some?)
      ensures MatchClassAt(s, className, j).Some? ==>
        MatchClassAt(s, className, j).value.open == MatchClassAt(t, className, j).value.open
    {
      MatchClassAtLocal(s, t, className, n, j);
    }
    FindClassIs(t, className, 0, m.start);
    m' := FindClass(t, className, 0).value;
  }


  /** What the parameter text is, given the text between the `(` and the first `)` after it. */
  function FromInner(inner: string): (r: Result<string>)
    ensures r.Ok? <==> '(' !in inner
    ensures r.Ok? ==> r.value == inner
  {
    if '(' in inner then Err(UnterminatedParameterList) else Ok(inner)
  }

  /** Both parameter-text cases at once. */
  lemma ParameterListTextBySpan(text: string, className: string, sp: Span)
    requires '(' !in className
    requires ParameterSpan(text, className) == Some(sp)
    ensures ParameterListText(text, className) == FromInner(text[sp.open + 1..sp.close])
  {
    var m := FoundSpan(text, className, sp);
    TextOfSpan(text, className, m, sp);
    assert ParameterListText(text, className) == ParameterTextOf(text, Some(m));
  }




  /** The same for a declaration `m` that is known, whose span is `sp`. */
  lemma TextOfSpan(text: string, className: string, m: ClassMatch, sp: Span)
    requires '(' !in className
    requires IsClassMatch(text, className, m) && SpanOf(text, Some(m)) == Some(sp)
    ensures Declares(text, Some(m))
    ensures ParameterTextOf(text, Some(m)) == FromInner(text[sp.open + 1..sp.close])
  {
    SpanOfMatch(text, m);
    MatchParameterText(text, className, m, sp.close);
  }


  /** The parameter text of a declaration whose `(` is followed by a `)` at `close`. */
  lemma MatchParameterText(text: string, className: string, m: ClassMatch, close: nat)
    requires '(' !in className && IsClassMatch(text, className, m)
    requires m.open < close < m.end && text[close] == ')' && ')' !in text[m.open + 1..close]
    ensures '(' in text[m.start..m.end]
    ensures ParameterText(text[m.start..m.end]) == FromInner(text[m.open + 1..close])
  {
    MatchTextShape(text, className, m, close);
    var value := text[m.start..m.end];
    ValueParameterText(value, m.open - m.start, close - m.open - 1);
  }

  /** `ParameterText` of a text whose first `(` is at `at` and whose next `)` is `q` characters on. */
  lemma ValueParameterText(value: string, at: nat, q: nat)
    requires at < |value| && value[at] == '(' && '(' !in value[..at]
    requires at + 1 + q < |value| && value[at + 1 + q] == ')' && ')' !in value[at + 1..at + 1 + q]
    ensures '(' in value
    ensures ParameterText(value) == FromInner(value[at + 1..at + 1 + q])
  {
    if '(' in value[at + 1..at + 1 + q] {
      ParameterTextOpen(value, at, q);
    } else {
      ParameterTextClosed(value, at, q);
    }
  }

  /** The parameter text of two texts that agree up to the `)` closing it is the same. */
  lemma SameParameterText(text: string, t: string, className: string, sp: Span)
    requires PlainName(className)
    requires ParameterSpan(text, className) == Some(sp)
    requires Agree(text, t, sp.close + 1)
    ensures ParameterListText(t, className) == ParameterListText(text, className)
  {
    var m := FoundSpan(text, className, sp);
    var m' := SameDeclaration(text, t, className, sp.close + 1, m);
    SpanAgrees(text, t, m, m', sp);
    assert ParameterSpan(t, className) == Some(sp);
    ParameterListTextBySpan(text, className, sp);
    ParameterListTextBySpan(t, className, sp);
  }

  /** Texts that agree up to the `)` closing the span of `m`, and match at the same `(`, have the same span. */
  lemma SpanAgrees(text: string, t: string, m: ClassMatch, m': ClassMatch, sp: Span)
    requires SpanOf(text, Some(m)) == Some(sp)
    requires Agree(text, t, sp.close + 1) && m'.open == m.open
    ensures SpanOf(t, Some(m')) == Some(sp)
    ensures t[sp.open + 1..sp.close] == text[sp.open + 1..sp.close]
  {
    AgreeAt(text, t, sp.close + 1);
    var rest := t[m'.open + 1..];
    assert rest[sp.close - sp.open - 1] == ')';
    var sp' := SpanOf(t, Some(m')).value;
    SameClose(text, t, sp.open, sp.close, sp'.close);
  }

  /**
    Nothing after the first `)` of the parameter list changes the result: the
    class body, and anything else that follows, can be replaced at will.
   */
  lemma ClassBodyIrrelevant(text: string, className: string, tail: string, sp: Span)
    requires PlainName(className)
    requires ParameterSpan(text, className) == Some(sp)
    ensures NamesInText(text[..sp.close + 1] + tail, className) == NamesInText(text, className)
  {
    var n := sp.close + 1;
    var t := text[..n] + tail;
    assert t[..n] == text[..n];
    SameParameterText(text, t, className, sp);
  }


  /** `mapNotNull` distributes over concatenation. */
  lemma {:induction false} TypeNamesConcat(xs: seq<string>, ys: seq<string>)
    ensures TypeNames(xs + ys) == TypeNames(xs) + TypeNames(ys)
  {
    if xs == [] {
      assert xs + ys == ys;
    } else {
      assert (xs + ys)[0] == xs[0] && (xs + ys)[1..] == xs[1..] + ys;
      TypeNamesConcat(xs[1..], ys);
    }
  }

  /** Parameters are independent: a `,` splits the names of the two sides. */
  lemma NamesFromParametersConcat(a: string, b: string)
    ensures NamesFromParameters(a + [','] + b) == NamesFromParameters(a) + NamesFromParameters(b)
  {
    SplitConcat(a, b, ',');
    NonEmptyConcat(Split(a, ','), Split(b, ','));
    TypeNamesConcat(NonEmpty(Split(a, ',')), NonEmpty(Split(b, ',')));
  }

  /** A fragment's name is what follows its first `:`, up to any second `:`, trimmed. */
  lemma TypeNameAfterColon(a: string, b: string)
    requires ':' !in a
    ensures TypeNameOf(a + [':'] + b) == Some(Trim(Split(b, ':')[0]))
  {
    SplitConcat(a, b, ':');
    SplitNoDelimiter(a, ':');
  }

  /**
    One parameter without a `,`: a declaration `name: Type` gives its trimmed type,
    a fragment without `:` gives nothing.
   */
  lemma SingleParameter(f: string)
    requires ',' !in f
    ensures ':' !in f ==> NamesFromParameters(f) == []
    ensures forall a, b :: f == a + [':'] + b && ':' !in a ==>
      NamesFromParameters(f) == [Trim(Split(b, ':')[0])]
  {
    SplitNoDelimiter(f, ',');
    assert Split(f, ',') == [f];
    if f == [] {
      assert NonEmpty([f]) == [];
    } else {
      assert [f][1..] == [];
      assert NonEmpty([f]) == [f];
      assert TypeNames([f]) == if ':' in f then [TypeNameOf(f).value] else [];
      forall a, b | f == a + [':'] + b && ':' !in a
        ensures NamesFromParameters(f) == [Trim(Split(b, ':')[0])]
      {
        TypeNameAfterColon(a, b);
      }
    }
  }

  /** Empty fragments, from `()` or a trailing `,`, contribute nothing. */
  lemma TrailingComma(a: string)
    ensures NamesFromParameters(a + [',']) == NamesFromParameters(a)
    ensures NamesFromParameters([]) == []
  {
    NamesFromParametersConcat(a, []);
    assert a + [','] + [] == a + [','];
    assert Split([], ',') == [[]];
    assert NonEmpty([[]]) == [];
  }
}
