/**
  `KoinModuleParser` (src/main/kotlin/domain/common/KoinModuleParser.kt): finds the
  `val <name> = module {` anchor, cuts the module text into component blocks and
  turns each block into a `Component`, asking the injected dependency resolver for
  the constructor dependencies of every class whose constructor takes arguments.

  The resolver is a parameter: a function from a class name to its dependency names
  or a failure. Every outcome carries the list of class names the resolver was asked
  for, in order, so that "the resolver is never called" can be stated.

  The three regular expressions are modelled by scanners. None of the patterns looks
  backwards, so a search that resumes at index `e` of a text behaves as a search of
  the suffix starting at `e`; the scanners below are written on suffixes.
 */
module KoinModuleParser {

  import opened KotlinText
  import opened Model
  import Util

  // ---------------------------------------------------------------------------
  // The anchor `val.*=\s*module\s*\{`

  /** `\s*module\s*\{` right after the `=` at `e`: the index of the `{`. */
  function BraceAfterEquals(s: string, e: nat): (r: Option<nat>)
    requires e < |s|
    ensures r.Some? ==> e < r.value < |s| && s[r.value] == '{'
    ensures r.Some? ==> forall k :: e < k < r.value ==> s[k] != '{'
  {
    var p := SpaceRunEnd(s, e + 1);
    if StartsAt(s, p, "module") then
      var q := SpaceRunEnd(s, p + 6);
      assert forall k :: p <= k < p + 6 ==> s[k] == "module"[k - p];
      if q < |s| && s[q] == '{' then Some(q) else None
    else None
  }

  /**
    `\s*module\s*\{` spelled out after the `=` at `e`: blanks over `e + 1..p`,
    `module` at `p`, blanks over `p + 6..q` and the `{` at `q`.
   */
  predicate ModuleBraceAt(s: string, e: nat, p: nat, q: nat) {
    e < p && p + 6 <= q < |s| && StartsAt(s, p, "module") && s[q] == '{'
    && (forall k :: e < k < p ==> IsRegexSpace(s[k]))
    && (forall k :: p + 6 <= k < q ==> IsRegexSpace(s[k]))
  }

  /** Every `{` found after an `=` closes a spelled-out `\s*module\s*\{`. */
  lemma BraceAfterEqualsSound(s: string, e: nat)
    requires e < |s| && BraceAfterEquals(s, e).Some?
    ensures exists p :: ModuleBraceAt(s, e, p, BraceAfterEquals(s, e).value)
  {
    var p := SpaceRunEnd(s, e + 1);
    assert ModuleBraceAt(s, e, p, BraceAfterEquals(s, e).value);
  }

  /** Wherever `\s*module\s*\{` is spelled out after an `=`, its `{` is the one found. */
  lemma BraceAfterEqualsComplete(s: string, e: nat, p: nat, q: nat)
    requires ModuleBraceAt(s, e, p, q)
    ensures BraceAfterEquals(s, e) == Some(q)
  {
    assert s[p] == "module"[0];
    SpaceRunEndIs(s, e + 1, p);
    SpaceRunEndIs(s, p + 6, q);
  }

  /** An `=` from which the rest of the anchor pattern matches. */
  predicate AnchorEquals(s: string, e: nat) {
    e < |s| && s[e] == '=' && BraceAfterEquals(s, e).Some?
  }

  /** The last index in `lo..hi` at which `p` holds, if any. */
  function LastWhere(p: nat -> bool, lo: nat, hi: nat): (r: Option<nat>)
    requires lo <= hi
    ensures r.Some? ==> lo <= r.value < hi && p(r.value)
    ensures r.Some? ==> forall k :: r.value < k < hi ==> !p(k)
    ensures r.None? ==> forall k :: lo <= k < hi ==> !p(k)
    decreases hi - lo
  {
    if lo == hi then None
    else if p(hi - 1) then Some(hi - 1)
    else LastWhere(p, lo, hi - 1)
  }

  /** The greedy `.*=`: the last usable `=` in `s[lo..hi]`. */
  function LastAnchorEquals(s: string, lo: nat, hi: nat): (r: Option<nat>)
    requires lo <= hi <= |s|
    ensures r.Some? ==> lo <= r.value < hi && AnchorEquals(s, r.value)
    ensures r.Some? ==> forall k :: r.value < k < hi ==> !AnchorEquals(s, k)
    ensures r.None? ==> forall k :: lo <= k < hi ==> !AnchorEquals(s, k)
  {
    var usable := (k: nat) => AnchorEquals(s, k);
    assert forall k: nat :: usable(k) == AnchorEquals(s, k);
    LastWhere(usable, lo, hi)
  }

  /** The anchor matched at index 0 of `s`, as its exclusive end: one past its `{`. */
  function AnchorEnd(s: string): (r: Option<nat>)
    ensures r.Some? ==> StartsAt(s, 0, "val") && 4 < r.value <= |s| && s[r.value - 1] == '{'
  {
    if StartsAt(s, 0, "val") then
      match LastAnchorEquals(s, 3, LineEnd(s, 3))
      case None => None
      case Some(e) => Some(BraceAfterEquals(s, e).value + 1)
    else None
  }

  /**
    The anchor matches at 0 exactly when `s` starts with `val` and its first line
    holds an `=` that `\s*module\s*\{` follows; the match reaches past that `=`.
   */
  lemma AnchorEndIff(s: string)
    ensures AnchorEnd(s).Some? <==>
      StartsAt(s, 0, "val") && exists e :: 3 <= e < LineEnd(s, 3) && AnchorEquals(s, e)
    ensures forall e :: StartsAt(s, 0, "val") && 3 <= e < LineEnd(s, 3) && AnchorEquals(s, e) ==>
      AnchorEnd(s).Some? && AnchorEnd(s).value > e + 1
  {
    if StartsAt(s, 0, "val") {
      var line := LineEnd(s, 3);
      match LastAnchorEquals(s, 3, line)
      case Some(e) =>
        assert 3 <= e < line && AnchorEquals(s, e);
      case None =>
    }
  }

  /**
    `val`, a stretch without a line terminator, then `=`, blanks, `module`,
    blanks and `{`: the anchor matches at 0 and reaches past the `=`.
   */
  lemma AnchorFound(x: string, sp1: string, sp2: string, rest: string)
    requires forall k :: 0 <= k < |x| ==> !IsLineTerminator(x[k])
    requires forall k :: 0 <= k < |sp1| ==> IsRegexSpace(sp1[k])
    requires forall k :: 0 <= k < |sp2| ==> IsRegexSpace(sp2[k])
    ensures var s := "val" + x + "=" + sp1 + "module" + sp2 + "{" + rest;
      AnchorEnd(s).Some? && AnchorEnd(s).value > 3 + |x| + 1
  {
    var s := "val" + x + "=" + sp1 + "module" + sp2 + "{" + rest;
    var e := 3 + |x|;
    var p := e + 1 + |sp1|;
    var q := p + 6 + |sp2|;
    assert s[..3] == "val";
    assert s[p..p + 6] == "module";
    assert s[e] == '=' && s[q] == '{';
    assert forall k :: 3 <= k < e ==> s[k] == x[k - 3];
    assert forall k :: e < k < p ==> s[k] == sp1[k - e - 1];
    assert forall k :: p + 6 <= k < q ==> s[k] == sp2[k - p - 6];
    BraceAfterEqualsComplete(s, e, p, q);
    assert e < LineEnd(s, 3) && AnchorEquals(s, e);
    AnchorEndIff(s);
  }

  /** A match found by a leftmost search: `t[start..end]`. */
  datatype Match = Match(start: nat, end: nat)

  /**
    `Regex.find`: the leftmost index at which the matcher `at` succeeds on the
    rest of the text, with the end of that match.
   */
  function FindFirst(t: string, at: string -> Option<nat>): (r: Option<Match>)
    ensures r.Some? ==> r.value.start <= |t| && at(t[r.value.start..]).Some?
    ensures r.Some? ==> r.value.end == r.value.start + at(t[r.value.start..]).value
    decreases |t|
  {
    match at(t)
    case Some(e) => assert t[0..] == t; Some(Match(0, e))
    case None =>
      if t == [] then None
      else
        match FindFirst(t[1..], at)
        case None => None
        case Some(m) =>
          assert t[1..][m.start..] == t[m.start + 1..];
          Some(Match(m.start + 1, m.end + 1))
  }

  /** The match found is the leftmost one, and no match is missed. */
  lemma {:induction false} FindFirstLeftmost(t: string, at: string -> Option<nat>)
    ensures var r := FindFirst(t, at);
      r.Some? ==> forall j :: 0 <= j < r.value.start ==> at(t[j..]).None?
    ensures FindFirst(t, at).None? ==> forall j :: 0 <= j <= |t| ==> at(t[j..]).None?
    decreases |t|
  {
    assert t[0..] == t;
    if at(t).None? && t != [] {
      FindFirstLeftmost(t[1..], at);
      forall j | 1 <= j <= |t| ensures t[1..][j - 1..] == t[j..] {}
    }
  }

  /** `moduleStartRegex.find(content)`: the leftmost anchor. */
  function FindAnchor(s: string): Option<Match> {
    FindFirst(s, AnchorEnd)
  }

  /** The anchor found starts with `val` and ends with the `{`; none starts earlier. */
  lemma AnchorShape(s: string)
    ensures var r := FindAnchor(s);
      r.Some? ==> (r.value.start < r.value.end <= |s| && s[r.value.end - 1] == '{' &&
        StartsAt(s, r.value.start, "val"))
  {
    var r := FindAnchor(s);
    if r.Some? {
      AnchorEndAt(s, r.value.start, AnchorEnd(s[r.value.start..]).value);
    }
  }

  /** An anchor matched on the suffix from `i` is read back in the whole text. */
  lemma AnchorEndAt(s: string, i: nat, e: nat)
    requires i <= |s| && AnchorEnd(s[i..]) == Some(e)
    ensures i < i + e <= |s| && s[i + e - 1] == '{' && StartsAt(s, i, "val")
  {
    var u := s[i..];
    assert u[e - 1] == s[i + e - 1];
    assert u[..3] == s[i..i + 3];
  }

  // ---------------------------------------------------------------------------
  // The component blocks
  // `(single|viewModel|factory|scoped)((?!kw).)*\{((?!kw).)*}`

  /** One of the four component keywords occurs at `p`. */
  predicate KeywordStart(t: string, p: nat) {
    StartsAt(t, p, "single") || StartsAt(t, p, "viewModel") || StartsAt(t, p, "factory")
    || StartsAt(t, p, "scoped")
  }

  /** The length of the keyword at index 0 (alternatives tried in pattern order), or 0. */
  function KeywordLength(t: string): (k: nat)
    ensures k > 0 <==> KeywordStart(t, 0)
    ensures k > 0 ==> k <= |t| && (k == 6 || k == 7 || k == 9)
  {
    if StartsAt(t, 0, "single") then 6
    else if StartsAt(t, 0, "viewModel") then 9
    else if StartsAt(t, 0, "factory") then 7
    else if StartsAt(t, 0, "scoped") then 6
    else 0
  }

  /**
    How far `((?!kw).)*` can reach from `k`: up to the first keyword, line
    terminator or the end of the text.
   */
  function RunEnd(t: string, k: nat): (r: nat)
    requires k <= |t|
    ensures k <= r <= |t|
    ensures forall p :: k <= p < r ==> !KeywordStart(t, p) && !IsLineTerminator(t[p])
    ensures r == |t| || KeywordStart(t, r) || IsLineTerminator(t[r])
    decreases |t| - k
  {
    if k == |t| || KeywordStart(t, k) || IsLineTerminator(t[k]) then k else RunEnd(t, k + 1)
  }

  /**
    The block matched at index 0 of `t`, as its exclusive end. The two greedy runs
    share the keyword-free stretch after the keyword, so the match ends at the last
    `}` of that stretch, provided some `{` comes before it.
   */
  function BlockEnd(t: string): (r: Option<nat>)
    ensures r.Some? ==> 0 < r.value <= |t|
  {
    var k := KeywordLength(t);
    if k == 0 then None else BlockEndIn(t, k, RunEnd(t, k))
  }

  /** The two greedy runs over the stretch `t[k..run]`: one past its last `}`, if a `{` precedes it. */
  function BlockEndIn(t: string, k: nat, run: nat): (r: Option<nat>)
    requires k <= run <= |t|
    ensures r.Some? ==> k < r.value <= run
  {
    match LastIndexIn(t, '}', k, run)
    case None => None
    case Some(c) => if LastIndexIn(t, '{', k, c).Some? then Some(c + 1) else None
  }

  /** What a block match is: keyword, keyword-free stretch holding a `{` and ending at its last `}`. */
  lemma BlockShape(t: string)
    ensures BlockEnd(t).Some? ==> KeywordStart(t, 0)
    ensures BlockEnd(t).Some? ==> var k, e := KeywordLength(t), BlockEnd(t).value;
      k < e <= RunEnd(t, k) && t[e - 1] == '}' && '{' in t[k..e - 1]
    ensures BlockEnd(t).Some? ==>
      forall p :: BlockEnd(t).value <= p < RunEnd(t, KeywordLength(t)) ==> t[p] != '}'
    ensures BlockEnd(t).None? && KeywordStart(t, 0) ==> var k := KeywordLength(t);
      forall b, c :: k <= b < c < RunEnd(t, k) && t[b] == '{' ==> t[c] != '}'
  {
    var k := KeywordLength(t);
    if k > 0 {
      var run := RunEnd(t, k);
      assert BlockEnd(t) == BlockEndIn(t, k, run);
      BlockFound(t, k, run);
      BlockMissing(t, k, run);
    }
  }

  /** The stretch `t[k..run]` yields a block ending after its last `}`, when a `{` precedes that `}`. */
  lemma BlockFound(t: string, k: nat, run: nat)
    requires k <= run <= |t|
    ensures BlockEndIn(t, k, run).Some? ==> var e := BlockEndIn(t, k, run).value;
      k < e <= run && t[e - 1] == '}' && '{' in t[k..e - 1] &&
      forall p :: e <= p < run ==> t[p] != '}'
  {
    var c := LastIndexIn(t, '}', k, run);
    if c.Some? {
      var o := LastIndexIn(t, '{', k, c.value);
      if o.Some? {
        assert BlockEndIn(t, k, run) == Some(c.value + 1);
        assert t[k..c.value][o.value - k] == '{';
      }
    }
  }

  /** Without a block, no `}` of the stretch comes after a `{` of it. */
  lemma BlockMissing(t: string, k: nat, run: nat)
    requires k <= run <= |t|
    ensures BlockEndIn(t, k, run).None? ==> forall b, c :: k <= b < c < run && t[b] == '{' ==> t[c] != '}'
  {
    var c := LastIndexIn(t, '}', k, run);
    if BlockEndIn(t, k, run).None? && c.Some? {
      var last := c.value;
      assert LastIndexIn(t, '{', k, last).None?;
      forall b, c' | k <= b < c' < run && t[b] == '{'
        ensures t[c'] != '}'
      {
        assert last < b;
      }
    }
  }

  /** `componentsRegex.findAll(text).map { it.value }`: each search resumes where the last match ended. */
  function Blocks(t: string): seq<string>
    decreases |t|
  {
    match FindFirst(t, BlockEnd)
    case None => []
    case Some(m) =>
      assert m.end > m.start;
      [BlockValue(t[m.start..])] + Blocks(t[m.end..])
  }

  /** What every block value looks like: a keyword first, a `{` inside, a `}` last. */
  predicate IsBlockValue(b: string) {
    b != [] && KeywordStart(b, 0) && '{' in b && b[|b| - 1] == '}'
  }

  /** The text of the block matched at index 0 of `u`. */
  function BlockValue(u: string): string
    requires BlockEnd(u).Some?
  {
    u[..BlockEnd(u).value]
  }

  lemma BlockValueShape(u: string)
    requires BlockEnd(u).Some?
    ensures IsBlockValue(BlockValue(u))
  {
    var e := BlockEnd(u).value;
    BlockShape(u);
    var k := KeywordLength(u);
    KeywordStartPrefix(u, e);
    BraceInPrefix(u, k, e);
  }

  /** A keyword at the start survives cutting the text after it. */
  lemma KeywordStartPrefix(u: string, e: nat)
    requires e <= |u| && KeywordStart(u, 0) && KeywordLength(u) <= e
    ensures KeywordStart(u[..e], 0)
  {
    var b := u[..e];
    if StartsAt(u, 0, "single") {
      assert b[0..6] == u[0..6];
    } else if StartsAt(u, 0, "viewModel") {
      assert b[0..9] == u[0..9];
    } else if StartsAt(u, 0, "factory") {
      assert b[0..7] == u[0..7];
    } else {
      assert b[0..6] == u[0..6];
    }
  }

  /** A `{` inside `u[k..e - 1]` and a final `}` carry over to `u[..e]`. */
  lemma BraceInPrefix(u: string, k: nat, e: nat)
    requires k < e <= |u| && '{' in u[k..e - 1] && u[e - 1] == '}'
    ensures '{' in u[..e] && u[..e][e - 1] == '}'
  {
    var j :| 0 <= j < e - 1 - k && u[k..e - 1][j] == '{';
    assert u[..e][k + j] == '{';
  }

  /** Every block found has that shape. */
  lemma {:induction false} BlocksShape(t: string)
    ensures forall k :: 0 <= k < |Blocks(t)| ==> IsBlockValue(Blocks(t)[k])
    decreases |t|
  {
    match FindFirst(t, BlockEnd)
    case None =>
    case Some(m) =>
      BlockValueShape(t[m.start..]);
      BlocksShape(t[m.end..]);
  }

  // ---------------------------------------------------------------------------
  // The `parameters ... ->` clause

  /** The greedy `.*->`: the last `->` starting in `s[lo..hi]`. */
  function LastArrow(s: string, lo: nat, hi: nat): (r: Option<nat>)
    requires lo <= hi <= |s|
    ensures r.Some? ==> lo <= r.value < hi && StartsAt(s, r.value, "->")
    ensures r.Some? ==> forall k :: r.value < k < hi ==> !StartsAt(s, k, "->")
    ensures r.None? ==> forall k :: lo <= k < hi ==> !StartsAt(s, k, "->")
    decreases hi - lo
  {
    if lo == hi then None
    else if StartsAt(s, hi - 1, "->") then Some(hi - 1)
    else LastArrow(s, lo, hi - 1)
  }

  /**
    `parameters.*->` matched at index 0 of `s`, as its exclusive end: the clause
    reaches the last `->` on the line.
   */
  function ClauseEnd(s: string): (r: Option<nat>)
    ensures r.Some? ==> 12 <= r.value <= |s| && StartsAt(s, 0, "parameters")
    ensures r.Some? ==> StartsAt(s, r.value - 2, "->") && r.value - 2 < LineEnd(s, 10)
    ensures r.Some? ==> forall k :: r.value - 2 < k < LineEnd(s, 10) ==> !StartsAt(s, k, "->")
    ensures r.None? && StartsAt(s, 0, "parameters") ==>
      forall k :: 10 <= k < LineEnd(s, 10) ==> !StartsAt(s, k, "->")
  {
    if StartsAt(s, 0, "parameters") then
      match LastArrow(s, 10, LineEnd(s, 10))
      case None => None
      case Some(j) => Some(j + 2)
    else None
  }

  /** `replace(moduleParametersRegex, "")`: every clause found left to right is deleted. */
  function StripParameters(s: string): (r: string)
    ensures |r| <= |s|
    decreases |s|
  {
    if s == [] then []
    else
      match ClauseEnd(s)
      case Some(e) => StripParameters(s[e..])
      case None => [s[0]] + StripParameters(s[1..])
  }

  // ---------------------------------------------------------------------------
  // One block to one component

  /** `componentTypeRaw.trim().split("<")[0]`: the keyword without a type argument. */
  function KindOf(block: string): string
    requires '{' in block
  {
    Split(Trim(Split(block, '{')[0]), '<')[0]
  }

  /** `componentDefinitionRaw` without its `parameters ->` clause, trimmed. */
  function DefinitionOf(block: string): string
    requires '{' in block
  {
    Trim(StripParameters(Split(block, '{')[1]))
  }

  /** The destructuring of `split("(")` needs a second part. */
  predicate HasCall(block: string)
    requires '{' in block
  {
    '(' in DefinitionOf(block)
  }

  /** The text before the first `(`: the class the component produces. */
  function CallName(block: string): (name: string)
    requires '{' in block && HasCall(block)
    ensures '(' !in name
  {
    Split(DefinitionOf(block), '(')[0]
  }

  /** The text after the first `(`, with every `}` deleted and trimmed, is exactly `)`. */
  predicate EmptyArguments(block: string)
    requires '{' in block && HasCall(block)
  {
    Trim(Util.Delete(Split(DefinitionOf(block), '(')[1], "}")) == ")"
  }

  /** The `when (componentType)` branch. */
  function Classify(kind: string, name: string, deps: seq<string>): (r: Result<Component>)
    ensures r.Ok? <==> kind == "single" || kind == "viewModel" || kind == "factory"
    ensures r.Ok? ==> r.value.name == name && r.value.dependencies == deps && !r.value.Scope?
    ensures r.Ok? ==> ((r.value.Singleton? <==> kind == "single") &&
      (r.value.ViewModel? <==> kind == "viewModel") && (r.value.Factory? <==> kind == "factory"))
    ensures r.Err? ==> r.failure == UnknownComponentKind(kind)
  {
    if kind == "single" then Ok(Singleton(name, deps))
    else if kind == "viewModel" then Ok(ViewModel(name, deps))
    else if kind == "factory" then Ok(Factory(name, deps))
    else Err(UnknownComponentKind(kind))
  }

  /**
    The body of the `map` in `parseComponents` for one block. The resolver is asked
    before the keyword is classified, so an unknown keyword still costs a query.
   */
  function ComponentOf(block: string, resolve: string -> Result<seq<string>>): (r: Outcome<Component>)
    requires '{' in block
    ensures |r.queries| <= 1
    ensures r.result.Ok? ==> HasCall(block) && r.result.value.name == CallName(block)
    ensures r.result.Ok? ==> !r.result.value.Scope?
  {
    if !HasCall(block) then Outcome(Err(ComponentWithoutCall), [])
    else
      var name := CallName(block);
      if EmptyArguments(block) then Outcome(Classify(KindOf(block), name, []), [])
      else
        match resolve(name)
        case Err(f) => Outcome(Err(f), [name])
        case Ok(deps) => Outcome(Classify(KindOf(block), name, deps), [name])
  }

  /** Each block's outcome, in block order. */
  function Outcomes(blocks: seq<string>, resolve: string -> Result<seq<string>>): (r: seq<Outcome<Component>>)
    requires forall k :: 0 <= k < |blocks| ==> IsBlockValue(blocks[k])
    ensures |r| == |blocks|
  {
    seq(|blocks|, k requires 0 <= k < |blocks| && IsBlockValue(blocks[k]) => ComponentOf(blocks[k], resolve))
  }

  /**
    `.toList()` of the lazily mapped sequence: the outcomes are forced in order and
    the first failure ends the parse, so only the queries up to it are made.
   */
  function Collect(steps: seq<Outcome<Component>>): (r: Outcome<seq<Component>>)
    ensures r.result.Ok? ==> |r.result.value| == |steps|
  {
    if steps == [] then Outcome(Ok([]), [])
    else
      match steps[0].result
      case Err(f) => Outcome(Err(f), steps[0].queries)
      case Ok(c) =>
        var rest := Collect(steps[1..]);
        match rest.result
        case Err(f) => Outcome(Err(f), steps[0].queries + rest.queries)
        case Ok(cs) => Outcome(Ok([c] + cs), steps[0].queries + rest.queries)
  }

  // ---------------------------------------------------------------------------
  // `parse`

  /** `moduleMatch.value.split(" ").filter { it.isNotEmpty() }`. */
  function NameTokens(content: string, a: Match): seq<string>
    requires a.start <= a.end <= |content|
  {
    NonEmpty(Split(content[a.start..a.end], ' '))
  }

  /** `content.substring(moduleMatch.range.last).remove("\n")`: from the anchor's `{` on, without newlines. */
  function ModuleText(content: string, a: Match): string
    requires a.start < a.end <= |content|
  {
    Util.Delete(content[a.end - 1..], "\n")
  }

  /** The blocks of the module body that follows the anchor `a`. */
  function ModuleBlocks(content: string, a: Match): (bs: seq<string>)
    requires a.start < a.end <= |content|
    ensures forall k :: 0 <= k < |bs| ==> IsBlockValue(bs[k])
  {
    BlocksShape(ModuleText(content, a));
    Blocks(ModuleText(content, a))
  }

  /** `KoinModuleParser.parse(content)`, with the resolver queries it makes. */
  function Parse(content: string, resolve: string -> Result<seq<string>>): (r: Outcome<KoinModule>)
    ensures FindAnchor(content).None? ==> r == Outcome(Err(NoModuleFound), [])
  {
    AnchorShape(content);
    ParseFrom(content, FindAnchor(content), resolve)
  }

  /** The parse once the anchor is known: no anchor, no module. */
  function ParseFrom(content: string, anchor: Option<Match>, resolve: string -> Result<seq<string>>): Outcome<KoinModule>
    requires anchor.Some? ==> anchor.value.start < anchor.value.end <= |content|
  {
    match anchor
    case None => Outcome(Err(NoModuleFound), [])
    case Some(a) => ModuleOf(NameTokens(content, a), ModuleBlocks(content, a), resolve)
  }

  /** The module named by the anchor's second token, made of the blocks' components. */
  function ModuleOf(tokens: seq<string>, blocks: seq<string>, resolve: string -> Result<seq<string>>): (r: Outcome<KoinModule>)
    requires forall k :: 0 <= k < |blocks| ==> IsBlockValue(blocks[k])
    ensures |tokens| < 2 ==> r == Outcome(Err(ModuleNameMissing), [])
    ensures r.result.Ok? ==> |tokens| >= 2 && r.result.value.name == tokens[1]
  {
    if |tokens| < 2 then Outcome(Err(ModuleNameMissing), [])
    else
      var c := Collect(Outcomes(blocks, resolve));
      match c.result
      case Err(f) => Outcome(Err(f), c.queries)
      case Ok(cs) => Outcome(Ok(KoinModule(tokens[1], cs)), c.queries)
  }

  // ---------------------------------------------------------------------------
  // One component: which branch is taken, and what the resolver is asked

  /** A block whose definition has no `(` fails before the resolver is asked. */
  lemma ComponentWithoutCallFails(block: string, resolve: string -> Result<seq<string>>)
    requires '{' in block && !HasCall(block)
    ensures ComponentOf(block, resolve) == Outcome(Err(ComponentWithoutCall), [])
  {
  }

  /**
    An empty argument list gives no dependencies and no query: the outcome is
    the same whatever the resolver would have answered.
   */
  lemma EmptyConstructorSkipsResolver(block: string, resolve: string -> Result<seq<string>>,
                                      other: string -> Result<seq<string>>)
    requires '{' in block && HasCall(block) && EmptyArguments(block)
    ensures ComponentOf(block, resolve).queries == []
    ensures ComponentOf(block, resolve) == ComponentOf(block, other)
    ensures ComponentOf(block, resolve).result.Ok? ==> ComponentOf(block, resolve).result.value.dependencies == []
  {
  }

  /**
    Otherwise the resolver is asked exactly once, for the text before the first `(`,
    and its answer is used as it is: its failure is the component's failure, its
    names are the component's dependencies.
   */
  lemma ResolverAskedForCallName(block: string, resolve: string -> Result<seq<string>>)
    requires '{' in block && HasCall(block) && !EmptyArguments(block)
    ensures ComponentOf(block, resolve).queries == [CallName(block)]
    ensures resolve(CallName(block)).Err? ==>
      ComponentOf(block, resolve).result == Err(resolve(CallName(block)).failure)
    ensures ComponentOf(block, resolve).result.Ok? ==>
      resolve(CallName(block)).Ok? &&
      ComponentOf(block, resolve).result.value.dependencies == resolve(CallName(block)).value
  {
  }

  /**
    Only `single`, `viewModel` and `factory` give a component, each its own
    variant; any other keyword, `scoped` included, is an error once the call and
    its dependencies are known.
   */
  lemma ComponentKind(block: string, resolve: string -> Result<seq<string>>)
    requires '{' in block
    ensures var r := ComponentOf(block, resolve).result; var kind := KindOf(block);
      r.Ok? ==> ((r.value.Singleton? <==> kind == "single") &&
        (r.value.ViewModel? <==> kind == "viewModel") && (r.value.Factory? <==> kind == "factory"))
    ensures var r := ComponentOf(block, resolve).result; var kind := KindOf(block);
      r.Ok? ==> (kind == "single" || kind == "viewModel" || kind == "factory")
    ensures var kind := KindOf(block);
      HasCall(block) && (EmptyArguments(block) || resolve(CallName(block)).Ok?) &&
      kind != "single" && kind != "viewModel" && kind != "factory" ==>
        ComponentOf(block, resolve).result == Err(UnknownComponentKind(kind))
    ensures KindOf(block) == "scoped" ==> ComponentOf(block, resolve).result.Err?
  {
  }

  // ---------------------------------------------------------------------------
  // All components: block order and the first failure

  /** The queries of the outcomes, one outcome after another. */
  function AllQueries(steps: seq<Outcome<Component>>): seq<string> {
    if steps == [] then [] else steps[0].queries + AllQueries(steps[1..])
  }

  /** When every block gives a component, they come out in block order and every query is made. */
  lemma {:induction false} CollectAllOk(steps: seq<Outcome<Component>>)
    requires forall k :: 0 <= k < |steps| ==> steps[k].result.Ok?
    ensures Collect(steps).result.Ok? && Collect(steps).queries == AllQueries(steps)
    ensures forall k :: 0 <= k < |steps| ==> Collect(steps).result.value[k] == steps[k].result.value
  {
    if steps != [] {
      CollectAllOk(steps[1..]);
      assert forall k :: 1 <= k < |steps| ==> steps[1..][k - 1] == steps[k];
    }
  }

  /**
    The first failing block decides the failure, and the queries stop with it:
    blocks after it are never looked at.
   */
  lemma {:induction false} CollectFirstFailure(steps: seq<Outcome<Component>>, i: nat)
    requires i < |steps| && steps[i].result.Err?
    requires forall k :: 0 <= k < i ==> steps[k].result.Ok?
    ensures Collect(steps) == Outcome(Err(steps[i].result.failure), AllQueries(steps[..i + 1]))
  {
    if i == 0 {
      assert steps[..1][1..] == [];
    } else {
      CollectFirstFailure(steps[1..], i - 1);
      assert steps[1..][..i] == steps[..i + 1][1..];
    }
  }

  // ---------------------------------------------------------------------------
  // How a module body is cut into blocks

  /** `w` at `p` of `b` is `w` at `p` of `b + rest`, when it fits in `b`. */
  lemma StartsAtPrefix(b: string, rest: string, p: nat, w: string)
    requires p + |w| <= |b|
    ensures StartsAt(b + rest, p, w) <==> StartsAt(b, p, w)
  {
    assert (b + rest)[p..p + |w|] == b[p..p + |w|];
  }

  /** A keyword at index 0 of `rest` is a keyword at index `|b|` of `b + rest`. */
  lemma KeywordAfter(b: string, rest: string)
    requires KeywordStart(rest, 0)
    ensures KeywordStart(b + rest, |b|)
  {
    forall w | StartsAt(rest, 0, w) ensures StartsAt(b + rest, |b|, w) {
      assert (b + rest)[|b|..|b| + |w|] == rest[..|w|];
    }
  }

  /** Past the end of `b`, keywords of `b + rest` are those of `rest`. */
  lemma KeywordBeyond(b: string, rest: string, p: nat)
    requires |b| <= p
    ensures KeywordStart(b + rest, p) <==> KeywordStart(rest, p - |b|)
  {
    var t, q := b + rest, p - |b|;
    if p + 6 <= |t| {
      assert t[p..p + 6] == rest[q..q + 6];
    }
    if p + 7 <= |t| {
      assert t[p..p + 7] == rest[q..q + 7];
    }
    if p + 9 <= |t| {
      assert t[p..p + 9] == rest[q..q + 9];
    }
  }

  /** A word without `}` cannot run across the `}` that ends `b`. */
  lemma NoStraddle(b: string, rest: string, p: nat, w: string)
    requires p < |b| < p + |w| && b[|b| - 1] == '}' && '}' !in w
    ensures !StartsAt(b + rest, p, w)
  {
    var t := b + rest;
    if p + |w| <= |t| {
      assert t[p..p + |w|][|b| - 1 - p] == t[|b| - 1];
    }
  }

  /** Inside a block that ends with `}`, keywords are the same with or without what follows. */
  lemma KeywordInside(b: string, rest: string, p: nat)
    requires p < |b| && b[|b| - 1] == '}'
    ensures KeywordStart(b + rest, p) <==> KeywordStart(b, p)
  {
    if p + 6 <= |b| {
      StartsAtPrefix(b, rest, p, "single");
      StartsAtPrefix(b, rest, p, "scoped");
    } else {
      NoStraddle(b, rest, p, "single");
      NoStraddle(b, rest, p, "scoped");
    }
    if p + 7 <= |b| {
      StartsAtPrefix(b, rest, p, "factory");
    } else {
      NoStraddle(b, rest, p, "factory");
    }
    if p + 9 <= |b| {
      StartsAtPrefix(b, rest, p, "viewModel");
    } else {
      NoStraddle(b, rest, p, "viewModel");
    }
  }

  /** The stopping point of a run, found by its defining property. */
  lemma {:induction false} RunEndIs(t: string, k: nat, r: nat)
    requires k <= r <= |t|
    requires forall p :: k <= p < r ==> !KeywordStart(t, p) && !IsLineTerminator(t[p])
    requires r == |t| || KeywordStart(t, r) || IsLineTerminator(t[r])
    ensures RunEnd(t, k) == r
    decreases r - k
  {
    if k < r {
      RunEndIs(t, k + 1, r);
    }
  }

  /**
    A block as a well-formed module body writes it: a keyword, then text without a
    keyword or line break that holds a `{` and ends with `}`.
   */
  predicate WellFormedBlock(b: string) {
    IsBlockValue(b) && KeywordLength(b) < |b| && '{' in b[KeywordLength(b)..|b| - 1] &&
    forall p :: KeywordLength(b) <= p < |b| ==> !KeywordStart(b, p) && !IsLineTerminator(b[p])
  }

  /** The keyword at the start of a block is the one at the start of anything it begins. */
  lemma KeywordLengthPrefix(b: string, rest: string)
    requires WellFormedBlock(b)
    ensures KeywordLength(b + rest) == KeywordLength(b)
  {
    var t := b + rest;
    assert t[0] == b[0];
    if |b| >= 9 {
      StartsAtPrefix(b, rest, 0, "viewModel");
    }
    StartsAtPrefix(b, rest, 0, "single");
    StartsAtPrefix(b, rest, 0, "scoped");
    if |b| >= 7 {
      StartsAtPrefix(b, rest, 0, "factory");
    }
    assert StartsAt(t, 0, "viewModel") ==> t[0] == 'v';
    assert StartsAt(t, 0, "factory") ==> t[0] == 'f';
    assert StartsAt(b, 0, "single") ==> b[0] == 's';
    assert StartsAt(b, 0, "scoped") ==> b[0] == 's';
  }

  /**
    What a body may hold after a block, up to the next keyword: no letter a keyword
    starts with and no `}`. Blanks, `{` and line breaks are all allowed.
   */
  predicate Gap(g: string) {
    forall i :: 0 <= i < |g| ==> g[i] != 's' && g[i] != 'v' && g[i] != 'f' && g[i] != '}'
  }

  /** After the keyword of a well-formed block, the run covers the block and stops within the gap after it. */
  lemma RunEndOfConcat(b: string, g: string, rest: string)
    requires WellFormedBlock(b) && Gap(g)
    requires rest == [] || KeywordStart(rest, 0)
    ensures |b| <= RunEnd(b + g + rest, KeywordLength(b)) <= |b| + |g|
  {
    var t := b + g + rest;
    assert t == b + (g + rest);
    var k := KeywordLength(b);
    forall p | k <= p < |b| ensures !KeywordStart(t, p) && !IsLineTerminator(t[p]) {
      KeywordInside(b, g + rest, p);
    }
    if rest != [] {
      KeywordAfter(b + g, rest);
    }
  }

  /** A well-formed block followed by a gap and the next keyword, or by nothing, is matched whole. */
  lemma BlockEndOfConcat(b: string, g: string, rest: string)
    requires WellFormedBlock(b) && Gap(g)
    requires rest == [] || KeywordStart(rest, 0)
    ensures BlockEnd(b + g + rest) == Some(|b|)
    ensures BlockValue(b + g + rest) == b
  {
    var t := b + g + rest;
    Regroup(b, g, rest);
    KeywordLengthPrefix(b, g + rest);
    RunEndOfConcat(b, g, rest);
    var k := KeywordLength(b);
    var run := RunEnd(t, k);
    BlockInFront(b, g, rest);
    GapHasNoClose(b, g, rest, run);
    BlockEndInClosed(t, k, |b|, run);
    assert BlockEnd(t) == BlockEndIn(t, k, run);
  }

  lemma Regroup(b: string, g: string, rest: string)
    ensures b + g + rest == b + (g + rest)
  {
  }

  /** What a well-formed block shows at the front of a longer text. */
  lemma BlockInFront(b: string, g: string, rest: string)
    requires WellFormedBlock(b)
    ensures (b + g + rest)[..|b|] == b && (b + g + rest)[|b| - 1] == '}'
    ensures '{' in (b + g + rest)[KeywordLength(b)..|b| - 1]
  {
    var t, k := b + g + rest, KeywordLength(b);
    assert t[..|b|] == b;
    assert forall j :: k <= j < |b| - 1 ==> t[j] == b[j];
    assert t[k..|b| - 1] == b[k..|b| - 1];
  }

  /** No `}` lies in the gap after a block. */
  lemma GapHasNoClose(b: string, g: string, rest: string, run: nat)
    requires Gap(g) && |b| <= run <= |b| + |g|
    ensures forall p :: |b| <= p < run ==> (b + g + rest)[p] != '}'
  {
    forall p | |b| <= p < run ensures (b + g + rest)[p] != '}' {
      assert (b + g + rest)[p] == g[p - |b|];
    }
  }

  /** A stretch whose last `}` is at `n - 1`, with a `{` before it, is a block up to `n`. */
  lemma BlockEndInClosed(t: string, k: nat, n: nat, run: nat)
    requires k < n <= run <= |t| && t[n - 1] == '}' && '{' in t[k..n - 1]
    requires forall p :: n <= p < run ==> t[p] != '}'
    ensures BlockEndIn(t, k, run) == Some(n)
  {
    assert LastIndexIn(t, '}', k, run) == Some(n - 1);
    var u := t[k..n - 1];
    var i :| 0 <= i < |u| && u[i] == '{';
    assert t[k + i] == '{';
  }

  /** The block, its gap and whatever follows: the block is found first, the rest after the gap. */
  lemma BlocksOfConcat(b: string, g: string, rest: string)
    requires WellFormedBlock(b) && Gap(g)
    requires rest == [] || KeywordStart(rest, 0)
    ensures Blocks(b + g + rest) == [b] + Blocks(rest)
  {
    var t := b + g + rest;
    BlockEndOfConcat(b, g, rest);
    assert FindFirst(t, BlockEnd) == Some(Match(0, |b|)) by {
      assert t[0..] == t;
    }
    BlocksAt(t, Match(0, |b|));
    assert t[0..] == t;
    AfterBlock(b, g, rest);
    BlocksSkipLeading(g, rest);
  }

  lemma AfterBlock(b: string, g: string, rest: string)
    ensures (b + g + rest)[|b|..] == g + rest
  {
  }

  /** The blocks written one after another, each followed by its gap. */
  function Body(bs: seq<string>, gs: seq<string>): string
    requires |gs| == |bs|
  {
    if bs == [] then [] else bs[0] + gs[0] + Body(bs[1..], gs[1..])
  }

  /** A body starts with its first block's keyword. */
  lemma BodyStartsWithKeyword(bs: seq<string>, gs: seq<string>)
    requires |gs| == |bs| && bs != [] && WellFormedBlock(bs[0])
    ensures KeywordStart(Body(bs, gs), 0)
  {
    var rest := gs[0] + Body(bs[1..], gs[1..]);
    assert Body(bs, gs) == bs[0] + rest;
    KeywordLengthPrefix(bs[0], rest);
  }

  /**
    A body written as well-formed blocks, each followed by a gap, is cut back into
    exactly those blocks, in order.
   */
  lemma {:induction false} BlocksOfWellFormed(bs: seq<string>, gs: seq<string>)
    requires |gs| == |bs|
    requires forall k :: 0 <= k < |bs| ==> WellFormedBlock(bs[k])
    requires forall k :: 0 <= k < |gs| ==> Gap(gs[k])
    ensures Blocks(Body(bs, gs)) == bs
  {
    if bs == [] {
      assert FindFirst([], BlockEnd).None?;
      BlocksNone([]);
    } else {
      var tail, gtail := bs[1..], gs[1..];
      var rest := Body(tail, gtail);
      assert forall k :: 0 <= k < |tail| ==> tail[k] == bs[k + 1];
      assert forall k :: 0 <= k < |gtail| ==> gtail[k] == gs[k + 1];
      if tail != [] {
        BodyStartsWithKeyword(tail, gtail);
      }
      BlocksOfConcat(bs[0], gs[0], rest);
      BlocksOfWellFormed(tail, gtail);
      HeadTail(bs);
    }
  }

  lemma HeadTail(bs: seq<string>)
    requires bs != []
    ensures [bs[0]] + bs[1..] == bs
  {
  }

  /** A character where no block can start is skipped by the search. */
  lemma BlocksSkip(t: string)
    requires t != [] && BlockEnd(t).None?
    ensures Blocks(t) == Blocks(t[1..])
  {
    var f := FindFirst(t[1..], BlockEnd);
    FindFirstStep(t, BlockEnd);
    if f.Some? {
      var m := f.value;
      var n := Match(m.start + 1, m.end + 1);
      ShiftOf(FindFirst(t, BlockEnd), f, m, 1);
      BlocksAt(t, n);
      BlocksAt(t[1..], m);
      assert t[1..][m.start..] == t[m.start + 1..];
      assert t[1..][m.end..] == t[m.end + 1..];
    } else {
      BlocksNone(t);
      BlocksNone(t[1..]);
    }
  }

  /** The blocks of `t` when the first block match is `m`. */
  lemma BlocksAt(t: string, m: Match)
    requires FindFirst(t, BlockEnd) == Some(m)
    ensures m.start < m.end <= |t| && BlockEnd(t[m.start..]).Some?
    ensures Blocks(t) == [BlockValue(t[m.start..])] + Blocks(t[m.end..])
  {
  }

  /** No block match, no blocks. */
  lemma BlocksNone(t: string)
    requires FindFirst(t, BlockEnd) == None
    ensures Blocks(t) == []
  {
  }

  /** Every keyword starts with `s`, `v` or `f`. */
  lemma NoBlockAtOtherLetter(t: string)
    requires t != [] && t[0] != 's' && t[0] != 'v' && t[0] != 'f'
    ensures BlockEnd(t).None?
  {
  }

  /**
    Text before the first block that holds none of the letters keywords start
    with (`{` and blanks, say) gives no block.
   */
  lemma {:induction false} BlocksSkipLeading(g: string, x: string)
    requires forall i :: 0 <= i < |g| ==> g[i] != 's' && g[i] != 'v' && g[i] != 'f'
    ensures Blocks(g + x) == Blocks(x)
  {
    if g != [] {
      var t := g + x;
      assert t[0] == g[0];
      NoBlockAtOtherLetter(t);
      BlocksSkip(t);
      assert t[1..] == g[1..] + x;
      BlocksSkipLeading(g[1..], x);
    } else {
      assert g + x == x;
    }
  }

  // ---------------------------------------------------------------------------
  // The `parameters ->` clause and the type argument

  /** Text in which no clause starts is left as it is. */
  lemma {:induction false} NoClauseUnchanged(s: string)
    requires forall k: nat :: !StartsAt(s, k, "parameters")
    ensures StripParameters(s) == s
    decreases |s|
  {
    if s != [] {
      assert !StartsAt(s, 0, "parameters");
      forall k: nat ensures !StartsAt(s[1..], k, "parameters") {
        assert !StartsAt(s, k + 1, "parameters");
        if k + 10 <= |s| - 1 {
          assert s[1..][k..k + 10] == s[k + 1..k + 11];
        }
      }
      NoClauseUnchanged(s[1..]);
    }
  }

  /** Text in which no `->` occurs is left as it is: no clause can end in it. */
  lemma {:induction false} NoArrowUnchanged(s: string)
    requires forall k: nat :: !StartsAt(s, k, "->")
    ensures StripParameters(s) == s
    decreases |s|
  {
    if s != [] {
      assert ClauseEnd(s).None?;
      forall k: nat ensures !StartsAt(s[1..], k, "->") {
        assert !StartsAt(s, k + 1, "->");
        if k + 2 <= |s| - 1 {
          assert s[1..][k..k + 2] == s[k + 1..k + 3];
        }
      }
      NoArrowUnchanged(s[1..]);
    }
  }

  /** Text without a `p` before a clause is kept as it is. */
  lemma {:induction false} KeptBeforeClause(pre: string, x: string)
    requires 'p' !in pre
    ensures StripParameters(pre + x) == pre + StripParameters(x)
  {
    if pre == [] {
      assert pre + x == x;
    } else {
      var t := pre + x;
      assert t[0] == pre[0];
      KeptCharacter(t);
      assert t[1..] == pre[1..] + x;
      KeptBeforeClause(pre[1..], x);
      ConsAppend(pre, StripParameters(x));
    }
  }

  /** A character other than `p` starts no clause and is kept. */
  lemma KeptCharacter(t: string)
    requires t != [] && t[0] != 'p'
    ensures StripParameters(t) == [t[0]] + StripParameters(t[1..])
  {
    assert !StartsAt(t, 0, "parameters") by {
      assert "parameters"[0] == 'p';
    }
    assert ClauseEnd(t).None?;
  }

  lemma ConsAppend(pre: string, y: string)
    requires pre != []
    ensures [pre[0]] + (pre[1..] + y) == pre + y
  {
    assert pre == [pre[0]] + pre[1..];
  }

  /** The last `->` of a stretch, found by its defining property. */
  lemma {:induction false} LastArrowIs(s: string, lo: nat, hi: nat, j: nat)
    requires lo <= j < hi <= |s| && StartsAt(s, j, "->")
    requires forall k :: j < k < hi ==> !StartsAt(s, k, "->")
    ensures LastArrow(s, lo, hi) == Some(j)
    decreases hi - lo
  {
    if hi - 1 != j {
      LastArrowIs(s, lo, hi - 1, j);
    }
  }

  /**
    A clause is deleted up to and including the last `->` of its line; the
    search goes on after it.
   */
  lemma ClauseRemoved(mid: string, post: string)
    requires forall k :: 0 <= k < |mid| ==> !IsLineTerminator(mid[k])
    requires forall k: nat :: !StartsAt(post, k, "->")
    ensures StripParameters("parameters" + mid + "->" + post) == StripParameters(post)
  {
    var s := "parameters" + mid + "->" + post;
    var j := 10 + |mid|;
    assert s[..10] == "parameters";
    assert s[j..j + 2] == "->";
    assert forall k :: 10 <= k < j ==> s[k] == mid[k - 10];
    assert !IsLineTerminator(s[j]) && !IsLineTerminator(s[j + 1]);
    var line := LineEnd(s, 10);
    assert line > j + 1;
    forall k | j < k < line ensures !StartsAt(s, k, "->") {
      if k == j + 1 {
        assert s[k] == '>';
      } else if k + 2 <= |s| {
        assert s[k..k + 2] == post[k - j - 2..k - j];
        assert !StartsAt(post, k - j - 2, "->");
      }
    }
    LastArrowIs(s, 10, line, j);
    assert ClauseEnd(s) == Some(j + 2);
    assert s[j + 2..] == post;
  }

  /** One clause in otherwise clause-free text: only the clause goes. */
  lemma ClauseDroppedFromText(pre: string, mid: string, post: string)
    requires 'p' !in pre
    requires forall k :: 0 <= k < |mid| ==> !IsLineTerminator(mid[k])
    requires forall k: nat :: !StartsAt(post, k, "->")
    ensures StripParameters(pre + "parameters" + mid + "->" + post) == pre + post
  {
    var clause := "parameters" + mid + "->" + post;
    assert pre + "parameters" + mid + "->" + post == pre + clause;
    KeptBeforeClause(pre, clause);
    ClauseRemoved(mid, post);
    NoArrowUnchanged(post);
  }

  /** The clause is gone before the class name is read. */
  lemma ParametersClauseDropped(block: string, pre: string, mid: string, post: string)
    requires '{' in block && Split(block, '{')[1] == pre + "parameters" + mid + "->" + post
    requires 'p' !in pre
    requires forall k :: 0 <= k < |mid| ==> !IsLineTerminator(mid[k])
    requires forall k: nat :: !StartsAt(post, k, "->")
    ensures DefinitionOf(block) == Trim(pre + post)
  {
    ClauseDroppedFromText(pre, mid, post);
  }

  /** The class name is the definition's text before its first `(`. */
  lemma CallNameBeforeParen(block: string, name: string, args: string)
    requires '{' in block && DefinitionOf(block) == name + "(" + args && '(' !in name
    ensures HasCall(block) && CallName(block) == name
  {
    assert DefinitionOf(block)[|name|] == '(';
    SplitConcat(name, args, '(');
    SplitNoDelimiter(name, '(');
  }

  /** A type argument after the keyword is cut off: `single<T>` is `single`. */
  lemma KindWithTypeArgument(block: string, kw: string, x: string)
    requires '{' in block && Split(block, '{')[0] == kw + "<" + x
    requires kw != [] && !IsWhitespace(kw[0]) && '<' !in kw
    ensures KindOf(block) == kw
  {
    var head := kw + "<" + x;
    assert head[0] == kw[0];
    assert TrimStart(head) == head;
    var r := TrimEnd(head);
    assert head[|kw|] == '<';
    assert |r| > |kw|;
    assert r == kw + "<" + r[|kw| + 1..];
    SplitConcat(kw, r[|kw| + 1..], '<');
    SplitNoDelimiter(kw, '<');
  }

  /** Without a type argument the keyword is the trimmed text before the `{`. */
  lemma KindWithoutTypeArgument(block: string, kw: string, w: string)
    requires '{' in block && Split(block, '{')[0] == kw + w
    requires kw != [] && !IsWhitespace(kw[0]) && !IsWhitespace(kw[|kw| - 1]) && '<' !in kw
    requires forall k :: 0 <= k < |w| ==> IsWhitespace(w[k])
    ensures KindOf(block) == kw
  {
    var head := kw + w;
    assert head[0] == kw[0];
    assert TrimStart(head) == head;
    var r := TrimEnd(head);
    assert head[|kw| - 1] == kw[|kw| - 1];
    assert |r| >= |kw|;
    assert r == kw;
    SplitNoDelimiter(kw, '<');
  }

  // ---------------------------------------------------------------------------
  // `parse` as a whole

  /** A match found in `t[n..]`, as indices into `t`. */
  function Shift(r: Option<Match>, n: nat): Option<Match> {
    match r
    case None => None
    case Some(m) => Some(Match(m.start + n, m.end + n))
  }

  /** A match shifted by `n`. */
  lemma ShiftOf(r: Option<Match>, f: Option<Match>, m: Match, n: nat)
    requires r == Shift(f, n) && f == Some(m)
    ensures r == Some(Match(m.start + n, m.end + n))
  {
  }

  /** Where nothing matches at the start, the search goes on one character further. */
  lemma FindFirstStep(t: string, at: string -> Option<nat>)
    requires t != [] && at(t).None?
    ensures FindFirst(t, at) == Shift(FindFirst(t[1..], at), 1)
  {
  }

  /** Shifting twice is shifting by the sum. */
  lemma ShiftShift(r: Option<Match>, m: nat, n: nat)
    ensures Shift(Shift(r, m), n) == Shift(r, m + n)
    ensures Shift(r, 0) == r
  {
  }

  /** When nothing matches before `n`, the search of `t` is the search of `t[n..]`, shifted. */
  lemma {:induction false} FindFirstSkip(t: string, at: string -> Option<nat>, n: nat)
    requires n <= |t|
    requires forall j :: 0 <= j < n ==> at(t[j..]).None?
    ensures FindFirst(t, at) == Shift(FindFirst(t[n..], at), n)
    decreases n
  {
    assert t[0..] == t;
    ShiftShift(FindFirst(t, at), 0, 0);
    if n > 0 {
      FindFirstStep(t, at);
      forall j | 0 <= j < n - 1
        ensures at(t[1..][j..]).None?
      {
        assert t[1..][j..] == t[j + 1..];
      }
      FindFirstSkip(t[1..], at, n - 1);
      assert t[1..][n - 1..] == t[n..];
      ShiftShift(FindFirst(t[n..], at), n - 1, 1);
    }
  }

  /** `w` at the start of `t[j..]` is `w` at `j` of `t`. */
  lemma StartsAtSuffix(t: string, j: nat, w: string)
    requires j <= |t|
    ensures StartsAt(t[j..], 0, w) <==> StartsAt(t, j, w)
  {
    if j + |w| <= |t| {
      assert t[j..][0..|w|] == t[j..j + |w|];
    }
  }

  /** With no `val` in the prefix, the anchor is the one in the rest, shifted. */
  lemma FindAnchorPrefix(p: string, c: string)
    requires forall k :: 0 <= k < |p| ==> !StartsAt(p + c, k, "val")
    ensures FindAnchor(p + c) == Shift(FindAnchor(c), |p|)
  {
    var t := p + c;
    forall j | 0 <= j < |p|
      ensures AnchorEnd(t[j..]).None?
    {
      StartsAtSuffix(t, j, "val");
    }
    FindFirstSkip(t, AnchorEnd, |p|);
    assert t[|p|..] == c;
  }

  /** Slices of `c` are slices of `p + c`, shifted by `|p|`. */
  lemma SliceOfConcat(p: string, c: string, i: nat, j: nat)
    requires i <= j <= |c|
    ensures (p + c)[|p| + i..|p| + j] == c[i..j]
    ensures (p + c)[|p| + i..] == c[i..]
  {
  }

  /** The name tokens depend only on the anchor's own text. */
  lemma SameNameTokens(p: string, c: string, a: Match)
    requires a.start <= a.end <= |c|
    ensures NameTokens(p + c, Match(a.start + |p|, a.end + |p|)) == NameTokens(c, a)
  {
    var b := Match(a.start + |p|, a.end + |p|);
    SliceOfConcat(p, c, a.start, a.end);
    var x := c[a.start..a.end];
    assert (p + c)[b.start..b.end] == x;
    assert NameTokens(p + c, b) == NonEmpty(Split(x, ' '));
  }

  /** The blocks depend only on the text from the anchor's `{` on. */
  lemma SameModuleBlocks(p: string, c: string, a: Match)
    requires a.start < a.end <= |c|
    ensures ModuleBlocks(p + c, Match(a.start + |p|, a.end + |p|)) == ModuleBlocks(c, a)
  {
    SliceOfConcat(p, c, a.end - 1, a.end);
    assert ModuleText(p + c, Match(a.start + |p|, a.end + |p|)) == ModuleText(c, a);
  }

  /** A parse whose anchor is `a`: the module named and filled from the text at `a`. */
  lemma ParseAt(content: string, resolve: string -> Result<seq<string>>, a: Match)
    requires FindAnchor(content) == Some(a)
    ensures a.start < a.end <= |content|
    ensures Parse(content, resolve) == ModuleOf(NameTokens(content, a), ModuleBlocks(content, a), resolve)
  {
    AnchorShape(content);
  }

  /**
    Text before the first `val` plays no part: the module is found, named and
    parsed as if the file began at that `val`.
   */
  lemma PrefixIgnored(p: string, c: string, resolve: string -> Result<seq<string>>)
    requires forall k :: 0 <= k < |p| ==> !StartsAt(p + c, k, "val")
    ensures Parse(p + c, resolve) == Parse(c, resolve)
  {
    FindAnchorPrefix(p, c);
    ParseShifted(p, c, resolve);
  }

  /** A parse whose anchor is the anchor of `c` shifted past `p` is the parse of `c`. */
  lemma ParseShifted(p: string, c: string, resolve: string -> Result<seq<string>>)
    requires FindAnchor(p + c) == Shift(FindAnchor(c), |p|)
    ensures Parse(p + c, resolve) == Parse(c, resolve)
  {
    var fc := FindAnchor(c);
    AnchorShape(c);
    ParseFromShifted(p, c, fc, resolve);
  }

  /** Shifting the anchor past a prefix leaves the parse unchanged. */
  lemma ParseFromShifted(p: string, c: string, fc: Option<Match>, resolve: string -> Result<seq<string>>)
    requires fc.Some? ==> fc.value.start < fc.value.end <= |c|
    ensures ParseFrom(p + c, Shift(fc, |p|), resolve) == ParseFrom(c, fc, resolve)
  {
    ShiftedAnchorAgrees(p, c, fc);
    SameParseFrom(p + c, Shift(fc, |p|), c, fc, resolve);
  }

  /** An anchor shifted past a prefix has the same tokens and the same blocks. */
  lemma ShiftedAnchorAgrees(p: string, c: string, fc: Option<Match>)
    requires fc.Some? ==> fc.value.start < fc.value.end <= |c|
    ensures Shift(fc, |p|).Some? <==> fc.Some?
    ensures fc.Some? ==> var b := Shift(fc, |p|).value;
      b.start < b.end <= |p + c| &&
      NameTokens(p + c, b) == NameTokens(c, fc.value) && ModuleBlocks(p + c, b) == ModuleBlocks(c, fc.value)
  {
    if fc.Some? {
      var a := fc.value;
      ShiftOf(Shift(fc, |p|), fc, a, |p|);
      SameNameTokens(p, c, a);
      SameModuleBlocks(p, c, a);
    }
  }

  /** Anchors that agree on being found, on the tokens and on the blocks parse alike. */
  lemma SameParseFrom(x: string, fx: Option<Match>, y: string, fy: Option<Match>, resolve: string -> Result<seq<string>>)
    requires fx.Some? <==> fy.Some?
    requires fx.Some? ==> fx.value.start < fx.value.end <= |x| && fy.value.start < fy.value.end <= |y|
    requires fx.Some? ==> NameTokens(x, fx.value) == NameTokens(y, fy.value)
    requires fx.Some? ==> ModuleBlocks(x, fx.value) == ModuleBlocks(y, fy.value)
    ensures ParseFrom(x, fx, resolve) == ParseFrom(y, fy, resolve)
  {
  }

  /** Blanks, then a token, then a blank: the token is the first piece that is not empty. */
  lemma {:induction false} SpacesThenToken(sp: string, name: string, rest: string)
    requires forall k :: 0 <= k < |sp| ==> sp[k] == ' '
    requires name != [] && ' ' !in name
    ensures NonEmpty(Split(sp + name + " " + rest, ' ')) == [name] + NonEmpty(Split(rest, ' '))
  {
    if sp == [] {
      assert sp + name + " " + rest == name + [' '] + rest;
      SplitConcat(name, rest, ' ');
      SplitNoDelimiter(name, ' ');
      NonEmptyConcat([name], Split(rest, ' '));
    } else {
      var tail := sp[1..] + name + " " + rest;
      assert sp + name + " " + rest == [] + [' '] + tail;
      SplitConcat([], tail, ' ');
      NonEmptyConcat([[]], Split(tail, ' '));
      SpacesThenToken(sp[1..], name, rest);
    }
  }

  /** An anchor reaches past any text that holds no `=`. */
  lemma AnchorPastEquals(s: string, n: nat)
    requires AnchorEnd(s).Some? && n <= |s|
    requires forall k :: 0 <= k < n ==> s[k] != '='
    ensures AnchorEnd(s).value > n + 1
  {
    var e := LastAnchorEquals(s, 3, LineEnd(s, 3)).value;
    assert s[e] == '=';
  }

  /** `val`, blanks, a name and a blank open the anchor text: its first two tokens are `val` and the name. */
  lemma AnchorTokens(value: string, sp: string, name: string, rest: string)
    requires value == "val" + sp + name + " " + rest
    requires |sp| >= 1 && forall k :: 0 <= k < |sp| ==> sp[k] == ' '
    requires name != [] && ' ' !in name
    ensures NonEmpty(Split(value, ' ')) == ["val", name] + NonEmpty(Split(rest, ' '))
  {
    var tail := sp[1..] + name + " " + rest;
    BlankAfterVal(value, sp, name, rest);
    SplitConcat("val", tail, ' ');
    SplitNoDelimiter("val", ' ');
    NonEmptyConcat(["val"], Split(tail, ' '));
    SpacesThenToken(sp[1..], name, rest);
    TokensAfterVal(NonEmpty(["val"]), NonEmpty(Split(tail, ' ')), name, NonEmpty(Split(rest, ' ')));
  }

  /** The text after `val` and its first blank. */
  lemma BlankAfterVal(value: string, sp: string, name: string, rest: string)
    requires value == "val" + sp + name + " " + rest && |sp| >= 1 && sp[0] == ' '
    ensures value == "val" + [' '] + (sp[1..] + name + " " + rest)
  {
    assert sp == [' '] + sp[1..];
  }

  /** `["val"]` followed by `[name] + more`. */
  lemma TokensAfterVal(v: seq<string>, t: seq<string>, name: string, more: seq<string>)
    requires v == NonEmpty(["val"]) && t == [name] + more
    ensures v + t == ["val", name] + more
  {
    assert NonEmpty(["val"]) == ["val"] + NonEmpty([]);
  }

  /**
    The anchor of `val <blanks><name> = module {` is found at 0 and reaches past
    the name and the blank after it.
   */
  lemma AnchorAfterName(content: string, sp: string, name: string, sp1: string, sp2: string, rest: string)
    requires content == "val" + sp + name + " =" + sp1 + "module" + sp2 + "{" + rest
    requires forall k :: 0 <= k < |sp| ==> !IsLineTerminator(sp[k])
    requires forall k :: 0 <= k < |name| ==> !IsLineTerminator(name[k])
    requires forall k :: 0 <= k < |sp1| ==> IsRegexSpace(sp1[k])
    requires forall k :: 0 <= k < |sp2| ==> IsRegexSpace(sp2[k])
    ensures AnchorEnd(content).Some?
    ensures FindAnchor(content) == Some(Match(0, AnchorEnd(content).value))
    ensures AnchorEnd(content).value > |"val" + sp + name + " "|
  {
    var x := sp + name + " ";
    forall k | 0 <= k < |x|
      ensures !IsLineTerminator(x[k])
    {
      if k < |sp| {
        assert x[k] == sp[k];
      } else if k < |sp| + |name| {
        assert x[k] == name[k - |sp|];
      }
    }
    assert content == "val" + x + "=" + sp1 + "module" + sp2 + "{" + rest;
    AnchorFound(x, sp1, sp2, rest);
    assert content[0..] == content;
  }

  /**
    `val <name> = module {`: the module is named by the token after `val`, the
    second of the blank-separated pieces of the anchor.
   */
  lemma ParseModuleName(content: string, resolve: string -> Result<seq<string>>,
                        sp: string, name: string, sp1: string, sp2: string, rest: string)
    requires content == "val" + sp + name + " =" + sp1 + "module" + sp2 + "{" + rest
    requires |sp| >= 1 && forall k :: 0 <= k < |sp| ==> sp[k] == ' '
    requires name != [] && ' ' !in name && forall k :: 0 <= k < |name| ==> !IsLineTerminator(name[k])
    requires forall k :: 0 <= k < |sp1| ==> IsRegexSpace(sp1[k])
    requires forall k :: 0 <= k < |sp2| ==> IsRegexSpace(sp2[k])
    ensures FindAnchor(content).Some? && FindAnchor(content).value.start == 0
    ensures var a := FindAnchor(content).value;
      a.end <= |content| && |NameTokens(content, a)| >= 2 && NameTokens(content, a)[..2] == ["val", name]
    ensures Parse(content, resolve).result.Ok? ==> Parse(content, resolve).result.value.name == name
  {
    AnchorAfterName(content, sp, name, sp1, sp2, rest);
    var a := Match(0, AnchorEnd(content).value);
    ParseAt(content, resolve, a);
    var tail := "=" + sp1 + "module" + sp2 + "{" + rest;
    NameThenTail(sp, name, sp1, sp2, rest);
    AnchorNameTokens(content, a, sp, name, tail);
    assert NameTokens(content, a)[1] == NameTokens(content, a)[..2][1];
  }

  /** The text after the name and its blank. */
  lemma NameThenTail(sp: string, name: string, sp1: string, sp2: string, rest: string)
    ensures "val" + sp + name + " =" + sp1 + "module" + sp2 + "{" + rest
      == "val" + sp + name + " " + ("=" + sp1 + "module" + sp2 + "{" + rest)
  {
  }

  /** The anchor text of `val <blanks><name> …` starts with the tokens `val` and the name. */
  lemma AnchorNameTokens(content: string, a: Match, sp: string, name: string, tail: string)
    requires content == "val" + sp + name + " " + tail
    requires a.start == 0 && |"val" + sp + name + " "| <= a.end <= |content|
    requires |sp| >= 1 && forall k :: 0 <= k < |sp| ==> sp[k] == ' '
    requires name != [] && ' ' !in name
    ensures |NameTokens(content, a)| >= 2 && NameTokens(content, a)[..2] == ["val", name]
  {
    var head := "val" + sp + name + " ";
    AnchorText(head, tail, a.end);
    AnchorTokens(content[0..a.end], sp, name, tail[..a.end - |head|]);
  }

  /** The anchor text that reaches past `head`. */
  lemma AnchorText(head: string, tail: string, e: nat)
    requires |head| <= e <= |head + tail|
    ensures (head + tail)[0..e] == head + tail[..e - |head|]
  {
  }

  /** `toList()` succeeds exactly when every block gives a component. */
  lemma {:induction false} CollectOk(steps: seq<Outcome<Component>>)
    ensures Collect(steps).result.Ok? <==> forall k :: 0 <= k < |steps| ==> steps[k].result.Ok?
  {
    if steps != [] {
      CollectOk(steps[1..]);
      assert forall k :: 1 <= k < |steps| ==> steps[1..][k - 1] == steps[k];
    }
  }

  /**
    A parsed module holds one component per block of its body, in block order,
    none of them a scope, and every block's class was looked up in order.
   */
  lemma ParseOk(content: string, resolve: string -> Result<seq<string>>)
    ensures var r := Parse(content, resolve);
      r.result.Ok? ==>
        FindAnchor(content).Some? &&
        var a := FindAnchor(content).value;
        a.start < a.end <= |content| &&
        var bs := ModuleBlocks(content, a);
        var cs := r.result.value.components;
        |cs| == |bs| &&
        (forall k :: 0 <= k < |bs| ==> ComponentOf(bs[k], resolve).result == Ok(cs[k])) &&
        (forall k :: 0 <= k < |cs| ==> !cs[k].Scope?) &&
        r.queries == AllQueries(Outcomes(bs, resolve))
  {
    var r := Parse(content, resolve);
    if r.result.Ok? {
      var a := FindAnchor(content).value;
      AnchorShape(content);
      var bs := ModuleBlocks(content, a);
      var steps := Outcomes(bs, resolve);
      CollectOk(steps);
      CollectAllOk(steps);
    }
  }

  /**
    The module text, a lead-in without a letter a keyword starts with, then blocks
    each followed by a gap, is cut back into exactly those blocks.
   */
  lemma BlocksOfModule(content: string, a: Match, g: string, bs: seq<string>, gs: seq<string>)
    requires a.start < a.end <= |content| && |gs| == |bs|
    requires ModuleText(content, a) == g + Body(bs, gs)
    requires forall i :: 0 <= i < |g| ==> g[i] != 's' && g[i] != 'v' && g[i] != 'f'
    requires forall k :: 0 <= k < |bs| ==> WellFormedBlock(bs[k])
    requires forall k :: 0 <= k < |gs| ==> Gap(gs[k])
    ensures ModuleBlocks(content, a) == bs
  {
    BlocksSkipLeading(g, Body(bs, gs));
    BlocksOfWellFormed(bs, gs);
  }

  /**
    A module text made of blocks `bs` with gaps `gs`, after a lead-in without a
    letter a keyword starts with, is parsed block by block: the outcome is
    the module built from those blocks.
   */
  lemma ModuleComponents(content: string, resolve: string -> Result<seq<string>>, a: Match, g: string,
                         bs: seq<string>, gs: seq<string>)
    requires FindAnchor(content) == Some(a) && a.start < a.end <= |content| && |gs| == |bs|
    requires ModuleText(content, a) == g + Body(bs, gs)
    requires forall i :: 0 <= i < |g| ==> g[i] != 's' && g[i] != 'v' && g[i] != 'f'
    requires forall k :: 0 <= k < |bs| ==> WellFormedBlock(bs[k])
    requires forall k :: 0 <= k < |gs| ==> Gap(gs[k])
    ensures ModuleBlocks(content, a) == bs
    ensures Parse(content, resolve) == ModuleOf(NameTokens(content, a), bs, resolve)
  {
    BlocksOfModule(content, a, g, bs, gs);
    assert ParseFrom(content, Some(a), resolve) == ModuleOf(NameTokens(content, a), bs, resolve);
  }

  /** With a name, the module's queries are those of its blocks, and its components their components. */
  lemma ModuleOfBlocks(tokens: seq<string>, bs: seq<string>, resolve: string -> Result<seq<string>>)
    requires forall k :: 0 <= k < |bs| ==> IsBlockValue(bs[k])
    ensures |tokens| >= 2 ==> ModuleOf(tokens, bs, resolve).queries == Collect(Outcomes(bs, resolve)).queries
    ensures ModuleOf(tokens, bs, resolve).result.Ok? <==>
      |tokens| >= 2 && Collect(Outcomes(bs, resolve)).result.Ok?
    ensures ModuleOf(tokens, bs, resolve).result.Ok? ==>
      ModuleOf(tokens, bs, resolve).result.value.components == Collect(Outcomes(bs, resolve)).result.value
  {
  }

  /** The block has constructor arguments and the resolver knows its class. */
  predicate Resolves(block: string, resolve: string -> Result<seq<string>>)
    requires '{' in block
  {
    HasCall(block) && !EmptyArguments(block) && resolve(CallName(block)).Ok?
  }

  /** A block whose class the resolver knows: one query, and the keyword decides the rest. */
  lemma Resolved(block: string, resolve: string -> Result<seq<string>>)
    requires '{' in block && Resolves(block, resolve)
    ensures ComponentOf(block, resolve) ==
      Outcome(Classify(KindOf(block), CallName(block), resolve(CallName(block)).value), [CallName(block)])
  {
  }

  /** Two outcomes that both give a component: both components, both queries, in order. */
  lemma CollectTwo(x: Outcome<Component>, y: Outcome<Component>)
    requires x.result.Ok? && y.result.Ok?
    ensures Collect([x, y]) == Outcome(Ok([x.result.value, y.result.value]), x.queries + y.queries)
  {
    var c, d := x.result.value, y.result.value;
    assert [y][1..] == [];
    assert Collect([y][1..]) == Outcome(Ok([]), []);
    assert [d] + [] == [d] && y.queries + [] == y.queries;
    assert Collect([y]) == Outcome(Ok([d]), y.queries);
    assert [x, y][1..] == [y];
    assert [c] + [d] == [c, d];
  }

  /**
    A `factory` block then a `viewModel` block, both with constructor arguments
    the resolver knows: a `Factory` then a `ViewModel`, with the resolver's names
    as their dependencies, asked for in that order.
   */
  lemma FactoryThenViewModel(fb: string, vb: string, resolve: string -> Result<seq<string>>)
    requires IsBlockValue(fb) && KindOf(fb) == "factory" && Resolves(fb, resolve)
    requires IsBlockValue(vb) && KindOf(vb) == "viewModel" && Resolves(vb, resolve)
    ensures Collect([ComponentOf(fb, resolve), ComponentOf(vb, resolve)]) ==
      Outcome(Ok([Factory(CallName(fb), resolve(CallName(fb)).value),
                  ViewModel(CallName(vb), resolve(CallName(vb)).value)]),
              [CallName(fb), CallName(vb)])
  {
    Resolved(fb, resolve);
    Resolved(vb, resolve);
    CollectTwo(ComponentOf(fb, resolve), ComponentOf(vb, resolve));
    Pair(CallName(fb), CallName(vb));
  }

  lemma Pair(a: string, b: string)
    ensures [a] + [b] == [a, b]
  {
  }

  lemma OutcomesOfTwo(fb: string, vb: string, resolve: string -> Result<seq<string>>)
    requires IsBlockValue(fb) && IsBlockValue(vb)
    requires forall k :: 0 <= k < |[fb, vb]| ==> IsBlockValue([fb, vb][k])
    ensures Outcomes([fb, vb], resolve) == [ComponentOf(fb, resolve), ComponentOf(vb, resolve)]
  {
    var o := Outcomes([fb, vb], resolve);
    assert o[0] == ComponentOf(fb, resolve);
    assert o[1] == ComponentOf(vb, resolve);
    TwoElements(o, ComponentOf(fb, resolve), ComponentOf(vb, resolve));
  }

  lemma TwoElements<T>(o: seq<T>, x: T, y: T)
    requires |o| == 2 && o[0] == x && o[1] == y
    ensures o == [x, y]
  {
  }

  lemma BothBlocks(fb: string, vb: string)
    requires WellFormedBlock(fb) && WellFormedBlock(vb)
    ensures forall k :: 0 <= k < |[fb, vb]| ==> WellFormedBlock([fb, vb][k])
    ensures forall k :: 0 <= k < |[fb, vb]| ==> IsBlockValue([fb, vb][k])
  {
  }

  lemma BothGaps(gf: string, gv: string)
    requires Gap(gf) && Gap(gv)
    ensures forall k :: 0 <= k < |[gf, gv]| ==> Gap([gf, gv][k])
  {
  }

  /** A named module whose blocks all give components holds those components. */
  lemma ModuleOfCollected(tokens: seq<string>, bs: seq<string>, resolve: string -> Result<seq<string>>,
                          cs: seq<Component>, qs: seq<string>)
    requires forall k :: 0 <= k < |bs| ==> IsBlockValue(bs[k])
    requires |tokens| >= 2 && Collect(Outcomes(bs, resolve)) == Outcome(Ok(cs), qs)
    ensures ModuleOf(tokens, bs, resolve) == Outcome(Ok(KoinModule(tokens[1], cs)), qs)
  {
  }

  lemma BodyOfTwo(g: string, fb: string, gf: string, vb: string, gv: string)
    ensures g + fb + gf + vb + gv == g + Body([fb, vb], [gf, gv])
  {
    assert [fb, vb][1..] == [vb] && [gf, gv][1..] == [gv];
    assert Body([vb], [gv]) == vb + gv + Body([], []);
    assert Body([fb, vb], [gf, gv]) == fb + gf + (vb + gv + []);
  }

  /**
    A named module whose text is a lead-in, a `factory` block, a gap, a
    `viewModel` block and a gap parses to the module with a `Factory` and a
    `ViewModel`, after asking the resolver for the two class names in order.
   */
  lemma ParseFactoryThenViewModel(content: string, resolve: string -> Result<seq<string>>, a: Match,
                                  g: string, fb: string, gf: string, vb: string, gv: string)
    requires FindAnchor(content) == Some(a) && a.start < a.end <= |content|
    requires |NameTokens(content, a)| >= 2
    requires ModuleText(content, a) == g + fb + gf + vb + gv
    requires forall i :: 0 <= i < |g| ==> g[i] != 's' && g[i] != 'v' && g[i] != 'f'
    requires WellFormedBlock(fb) && Gap(gf) && WellFormedBlock(vb) && Gap(gv)
    requires KindOf(fb) == "factory" && Resolves(fb, resolve)
    requires KindOf(vb) == "viewModel" && Resolves(vb, resolve)
    ensures Parse(content, resolve) ==
      Outcome(Ok(KoinModule(NameTokens(content, a)[1],
                            [Factory(CallName(fb), resolve(CallName(fb)).value),
                             ViewModel(CallName(vb), resolve(CallName(vb)).value)])),
              [CallName(fb), CallName(vb)])
  {
    var bs, gs := [fb, vb], [gf, gv];
    BothBlocks(fb, vb);
    BothGaps(gf, gv);
    BodyOfTwo(g, fb, gf, vb, gv);
    ModuleComponents(content, resolve, a, g, bs, gs);
    FactoryThenViewModel(fb, vb, resolve);
    OutcomesOfTwo(fb, vb, resolve);
    ModuleOfCollected(NameTokens(content, a), bs, resolve,
      [Factory(CallName(fb), resolve(CallName(fb)).value), ViewModel(CallName(vb), resolve(CallName(vb)).value)],
      [CallName(fb), CallName(vb)]);
  }
  // ---------------------------------------------------------------------------
  // A `}` after the end of a block

  /**
    The run after a block's keyword stops only at a keyword, a line terminator or
    the end, so a `}` further on in the same run ends the block instead. When the
    module's `}` is followed on its line by more text holding a `}`, the last block
    takes in the module's `}` and that text.
   */
  lemma BlockRunsPastModule(b: string, tail: string, n: nat)
    requires WellFormedBlock(b)
    requires 0 < n <= |tail| && tail[n - 1] == '}'
    requires forall p :: 0 <= p < n ==> !KeywordStart(tail, p) && !IsLineTerminator(tail[p])
    ensures BlockEnd(b + tail).Some? && BlockEnd(b + tail).value >= |b| + n
    ensures BlockValue(b + tail)[..|b| + n] == b + tail[..n]
  {
    var t := b + tail;
    assert t[..|b| + n] == b + tail[..n] by {
      assert t[..|b| + n] == t[..|b|] + t[|b|..|b| + n];
      assert t[..|b|] == b && t[|b|..|b| + n] == tail[..n];
    }
    var k := KeywordLength(b);
    var i :| k <= i < |b| - 1 && b[i] == '{';
    assert t[i] == '{' && t[|b| + n - 1] == '}';
    KeywordLengthPrefix(b, tail);
    RunPastBlock(b, tail, n);
    BlockReaches(t, i, |b| + n);
    assert BlockValue(t)[..|b| + n] == t[..|b| + n];
  }

  /** After the keyword of `b`, nothing stops the run before `n` characters into what follows. */
  lemma RunPastBlock(b: string, tail: string, n: nat)
    requires WellFormedBlock(b)
    requires n <= |tail|
    requires forall p :: 0 <= p < n ==> !KeywordStart(tail, p) && !IsLineTerminator(tail[p])
    ensures forall p :: KeywordLength(b) <= p < |b| + n ==>
      !KeywordStart(b + tail, p) && !IsLineTerminator((b + tail)[p])
  {
    forall p | KeywordLength(b) <= p < |b| + n
      ensures !KeywordStart(b + tail, p) && !IsLineTerminator((b + tail)[p])
    {
      if p < |b| {
        KeywordInside(b, tail, p);
      } else {
        var q := p - |b|;
        assert (b + tail)[p] == tail[q] && !KeywordStart(tail, q);
        KeywordBeyond(b, tail, p);
      }
    }
  }

  /**
    A keyword, then a stretch free of keywords and line terminators that holds a
    `{` at `i` and a later `}` at `m - 1`: the block matched reaches `m` at least.
   */
  lemma BlockReaches(t: string, i: nat, m: nat)
    requires KeywordLength(t) <= i < m - 1 && m <= |t| && t[i] == '{' && t[m - 1] == '}'
    requires forall p :: KeywordLength(t) <= p < m ==> !KeywordStart(t, p) && !IsLineTerminator(t[p])
    requires KeywordStart(t, 0)
    ensures BlockEnd(t).Some? && BlockEnd(t).value >= m
    ensures BlockValue(t)[..m] == t[..m]
  {
    var k := KeywordLength(t);
    var run := RunEnd(t, k);
    assert m <= run;
    BlockMissing(t, k, run);
    BlockFound(t, k, run);
  }

}
