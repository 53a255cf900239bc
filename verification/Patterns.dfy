/** Key patterns of the utility package: fast paths in front of a cached compilation. */
module PatternUtils {
  import opened Collections
  import opened Globs
  import opened Regexes

  predicate HasWildcard(p: string) {
    '*' in p || '?' in p
  }

  /** A single star, at the end. */
  predicate IsPrefixPattern(p: string) {
    p != "" && p[|p| - 1] == '*' && '*' !in p[..|p| - 1]
  }

  function RegexBody(p: string): string {
    if HasWildcard(p) then GlobToRegex(p) else p
  }

  /** MatchPattern; None is an error. */
  function MatchPattern(p: string, key: string, engine: Engine): Option<bool> {
    if p == "" then None
    else if p == key then Some(true)
    else if IsPrefixPattern(p) then Some(HasPrefix(key, p[..|p| - 1]))
    else if p == "*" then Some(true)
    else match CompileAnchored(RegexBody(p), engine)
      case None => None
      case Some(r) => Some(Eval(r, key))
  }

  function Select(p: string, keys: seq<string>, engine: Engine): seq<string> {
    if keys == [] then []
    else if MatchPattern(p, keys[0], engine) == Some(true) then [keys[0]] + Select(p, keys[1..], engine)
    else Select(p, keys[1..], engine)
  }

  class Matcher {
    const engine: Engine
    var regexCache: map<string, Regex>

    ghost predicate Valid()
      reads this
    {
      forall body | body in regexCache :: CompileAnchored(body, engine) == Some(regexCache[body])
    }

    constructor (engine: Engine)
      ensures Valid() && this.engine == engine
    {
      this.engine := engine;
      regexCache := map[];
    }

    method EmitRegex(pattern: string) returns (result: string)
      ensures result == GlobToRegex(pattern)
    {
      result := "";
      var i := 0;
      assert pattern[0..] == pattern;
      while i < |pattern|
        invariant 0 <= i <= |pattern|
        invariant GlobToRegex(pattern) == result + GlobToRegex(pattern[i..])
      {
        EmitStep(pattern, i, result);
        result := result + Piece(pattern[i]);
        i := i + 1;
      }
    }

    /** The cache never changes an answer. */
    method Match(pattern: string, key: string) returns (r: Option<bool>)
      requires Valid()
      modifies this
      ensures Valid()
      ensures r == MatchPattern(pattern, key, engine)
    {
      if pattern == "" {
        return None;
      }
      if pattern == key {
        return Some(true);
      }
      if IsPrefixPattern(pattern) {
        return Some(HasPrefix(key, pattern[..|pattern| - 1]));
      }
      if pattern == "*" {
        return Some(true);
      }
      var body := pattern;
      if HasWildcard(pattern) {
        body := EmitRegex(pattern);
      }
      if body in regexCache {
        return Some(Eval(regexCache[body], key));
      }
      match CompileAnchored(body, engine) {
        case None => return None;
        case Some(re) =>
          regexCache := regexCache[body := re];
          return Some(Eval(re, key));
      }
    }

    /** The keys MatchPattern accepts, in order; an error when the pattern is empty or is rejected for some key. */
    method FilterKeys(pattern: string, keys: seq<string>) returns (r: Option<seq<string>>)
      requires Valid()
      modifies this
      ensures Valid()
      ensures r.None? <==>
              pattern == "" || exists i :: 0 <= i < |keys| && MatchPattern(pattern, keys[i], engine) == None
      ensures r.Some? ==> r.value == Select(pattern, keys, engine)
    {
      if pattern == "" {
        return None;
      }
      if pattern == "*" {
        StarSelectsAll(keys, engine);
        return Some(keys);
      }
      if IsPrefixPattern(pattern) {
        var matching := FilterByPrefix(pattern, keys);
        return Some(matching);
      }
      var result: seq<string> := [];
      var i := 0;
      assert keys[0..] == keys;
      while i < |keys|
        invariant 0 <= i <= |keys| && Valid()
        invariant forall j :: 0 <= j < i ==> MatchPattern(pattern, keys[j], engine) != None
        invariant Select(pattern, keys, engine) == result + Select(pattern, keys[i..], engine)
      {
        SelectStep(pattern, keys, i, result, engine);
        var m := Match(pattern, keys[i]);
        if m.None? {
          return None;
        }
        if m.value {
          result := result + [keys[i]];
        }
        i := i + 1;
      }
      return Some(result);
    }

    method FilterByPrefix(pattern: string, keys: seq<string>) returns (result: seq<string>)
      requires IsPrefixPattern(pattern)
      ensures result == Select(pattern, keys, engine)
      ensures forall i :: 0 <= i < |keys| ==> MatchPattern(pattern, keys[i], engine) != None
    {
      var prefix := pattern[..|pattern| - 1];
      result := [];
      var i := 0;
      assert keys[0..] == keys;
      while i < |keys|
        invariant 0 <= i <= |keys|
        invariant forall j :: 0 <= j < i ==> MatchPattern(pattern, keys[j], engine) != None
        invariant Select(pattern, keys, engine) == result + Select(pattern, keys[i..], engine)
      {
        SelectStep(pattern, keys, i, result, engine);
        PrefixPatternAnswer(pattern, keys[i], engine);
        if HasPrefix(keys[i], prefix) {
          result := result + [keys[i]];
        }
        i := i + 1;
      }
    }
  }

  lemma EmitStep(pattern: string, i: nat, done: string)
    requires i < |pattern|
    ensures done + GlobToRegex(pattern[i..]) == done + Piece(pattern[i]) + GlobToRegex(pattern[i + 1..])
  {
    assert pattern[i..][1..] == pattern[i + 1..];
  }

  lemma SelectStep(pattern: string, keys: seq<string>, i: nat, done: seq<string>, engine: Engine)
    requires i < |keys|
    ensures done + Select(pattern, keys[i..], engine) ==
            (if MatchPattern(pattern, keys[i], engine) == Some(true) then done + [keys[i]] else done)
            + Select(pattern, keys[i + 1..], engine)
  {
    assert keys[i..][1..] == keys[i + 1..];
  }

  lemma {:induction false} StarSelectsAll(keys: seq<string>, engine: Engine)
    ensures Select("*", keys, engine) == keys
  {
    if keys != [] {
      StarSelectsAll(keys[1..], engine);
      PrefixPatternAnswer("*", keys[0], engine);
    }
  }

  lemma PrefixPatternAnswer(p: string, key: string, engine: Engine)
    requires IsPrefixPattern(p)
    ensures MatchPattern(p, key, engine) == Some(HasPrefix(key, p[..|p| - 1]))
  {
  }

  /** Away from the prefix path, a wildcard pattern answers as the glob on keys without newline. */
  lemma WildcardMatchesAsGlob(p: string, key: string, engine: Engine)
    requires HasWildcard(p) && !IsPrefixPattern(p) && '\n' !in key
    ensures MatchPattern(p, key, engine) == Some(GlobMatch(p, key, true))
  {
    GlobCompilationPreservesMeaning(p, key);
    GlobMatchesItself(p, true);
    assert p == "*" ==> IsPrefixPattern(p);
  }

  ghost predicate AnswersAsGlob(p: string, key: string, engine: Engine) {
    MatchPattern(p, key, engine) == Some(GlobMatch(p, key, true))
  }

  /** A wildcard pattern answers as the glob on every key exactly when it takes the prefix path and has no '?'. */
  lemma WildcardIsExactIff(p: string, engine: Engine)
    requires HasWildcard(p)
    ensures (forall key :: AnswersAsGlob(p, key, engine)) <==> IsPrefixPattern(p) && '?' !in p
  {
    if IsPrefixPattern(p) {
      var s := p[..|p| - 1];
      assert p == s + "*";
      if '?' in p {
        QuestionIsLiteralInPrefix(s);
        var key := Blur(s);
        GlobConcatStar(s, key);
        assert !AnswersAsGlob(p, key, engine);
      } else {
        forall key ensures AnswersAsGlob(p, key, engine) {
          PrefixGlob(s, key, true);
        }
      }
    } else {
      var key := Fill(p, true);
      FillMatches(p, true);
      GlobToRegexParses(p);
      if Matches(Translate(p, true), key) {
        MatchedNewlines(p, key, true);
      }
      assert p == "*" ==> IsPrefixPattern(p);
      assert !AnswersAsGlob(p, key, engine);
    }
  }

  // Patterns without a wildcard.

  /** A non-empty pattern without wildcards or other syntax answers whether the key is the pattern. */
  lemma PlainPatternMatchesItself(p: string, key: string, engine: Engine)
    requires p != "" && forall c | c in p :: !IsSyntax(c)
    ensures MatchPattern(p, key, engine) == Some(key == p)
  {
    PlainTextMatchesItself(p, key);
    assert p[|p| - 1] in p;
  }

  /** A pattern without a wildcard is the pattern itself or an expression: one of the fragment answers by its own
      meaning, and of any other it answers what the engine makes of ^p$. */
  lemma WithoutWildcardIsExpression(p: string, key: string, engine: Engine)
    requires p != "" && !HasWildcard(p)
    ensures MatchPattern(p, key, engine) ==
            if key == p then Some(true)
            else if Parse(p).Some? then Some(Matches(Parse(p).value, key))
            else match engine("^" + p + "$") case Some(f) => Some(f(key)) case None => None
  {
    assert p[|p| - 1] in p;
  }

  /** The only errors: the empty pattern, and a wildcard-free one outside the fragment that the engine rejects, unless
      it is the key. */
  lemma ErrorIff(p: string, key: string, engine: Engine)
    ensures MatchPattern(p, key, engine).None? <==>
            p == "" || (key != p && '*' !in p && '?' !in p && Parse(p).None? && engine("^" + p + "$").None?)
  {
    if p != "" && !HasWildcard(p) {
      WithoutWildcardIsExpression(p, key, engine);
    }
    GlobToRegexParses(p);
  }

  // What a scan selects.

  /** A scan treats every key by itself and keeps their order. */
  lemma {:induction false} SelectConcat(p: string, a: seq<string>, b: seq<string>, engine: Engine)
    ensures Select(p, a + b, engine) == Select(p, a, engine) + Select(p, b, engine)
  {
    if a == [] {
      assert a + b == b;
    } else {
      assert (a + b)[1..] == a[1..] + b;
      SelectConcat(p, a[1..], b, engine);
    }
  }

  /** Each accepted key is selected as often as it occurs, and no other. */
  lemma {:induction false} SelectCounts(p: string, keys: seq<string>, key: string, engine: Engine)
    ensures multiset(Select(p, keys, engine))[key]
            == if MatchPattern(p, key, engine) == Some(true) then multiset(keys)[key] else 0
  {
    if keys != [] {
      SelectCounts(p, keys[1..], key, engine);
      assert keys == [keys[0]] + keys[1..];
    }
  }

  /** A scan for a plain pattern finds its occurrences. */
  lemma {:induction false} PlainPatternSelectsItself(p: string, keys: seq<string>, engine: Engine)
    requires p != "" && forall c | c in p :: !IsSyntax(c)
    ensures Select(p, keys, engine) == seq(multiset(keys)[p], _ => p)
  {
    if keys != [] {
      PlainPatternMatchesItself(p, keys[0], engine);
      PlainPatternSelectsItself(p, keys[1..], engine);
      assert keys == [keys[0]] + keys[1..];
    }
  }

  /** A text that differs from s at each '?' and nowhere else. */
  function Blur(s: string): string {
    if s == "" then "" else [if s[0] == '?' then 'x' else s[0]] + Blur(s[1..])
  }

  lemma {:induction false} QuestionIsLiteralInPrefix(s: string)
    ensures |Blur(s)| == |s| && (Blur(s) == s <==> '?' !in s)
  {
    if s != "" {
      QuestionIsLiteralInPrefix(s[1..]);
      assert s == [s[0]] + s[1..];
      assert Blur(s)[1..] == Blur(s[1..]);
    }
  }

  lemma {:induction false} GlobConcatStar(s: string, key: string)
    requires '*' !in s && key == Blur(s)
    ensures GlobMatch(s + "*", key, true)
  {
    if s == "" {
      assert s + "*" == "*";
      StarMatchesAll(key, true);
    } else {
      assert (s + "*")[1..] == s[1..] + "*";
      assert key[1..] == Blur(s[1..]);
      GlobConcatStar(s[1..], key[1..]);
    }
  }
}

/** Key patterns of the invalidation service. */
module InvalidationPatterns {
  import opened Collections
  import opened Globs
  import opened Regexes
  import L = LruList

  /** Compilation of a whole expression: anchored ones of the fragment are understood here. */
  function Compile(s: string, engine: Engine): Option<Regex> {
    if |s| >= 2 && s[0] == '^' && s[|s| - 1] == '$' then CompileAnchored(s[1..|s| - 1], engine)
    else CompileOther(s, engine)
  }

  /** An expression that does not compile matches nothing. */
  function RegexSelects(s: string, key: string, engine: Engine): bool {
    match Compile(s, engine)
    case Some(r) => Eval(r, key)
    case None => false
  }

  function WildcardToRegex(p: string): string {
    "^" + WildcardBody(p) + "$"
  }

  predicate StarFirst(p: string) {
    p != "" && p[0] == '*'
  }

  predicate StarLast(p: string) {
    p != "" && p[|p| - 1] == '*'
  }

  function TrimLeft(p: string): string {
    if StarFirst(p) then TrimLeft(p[1..]) else p
  }

  function TrimRight(p: string): string {
    if StarLast(p) then TrimRight(p[..|p| - 1]) else p
  }

  /** strings.Trim(p, "*"). */
  function Trim(p: string): string {
    TrimRight(TrimLeft(p))
  }

  /** What a fast path compares literally. */
  function Remainder(p: string): string
    requires StarFirst(p) || StarLast(p)
  {
    if StarFirst(p) && StarLast(p) then Trim(p) else if StarFirst(p) then p[1..] else p[..|p| - 1]
  }

  /** matchWildcard's decision for one key. */
  function WildcardSelects(p: string, key: string, engine: Engine): bool {
    if p == "*" then true
    else if StarFirst(p) && StarLast(p) then Contains(key, Trim(p))
    else if StarFirst(p) then HasSuffix(key, p[1..])
    else if StarLast(p) then HasPrefix(key, p[..|p| - 1])
    else RegexSelects(WildcardToRegex(p), key, engine)
  }

  const REGEX_CHARS := "[]()^$+?{}|"

  predicate IsRegex(p: string) {
    exists i :: 0 <= i < |REGEX_CHARS| && REGEX_CHARS[i] in p
  }

  function Select(keys: seq<string>, f: string -> bool): seq<string> {
    if keys == [] then []
    else if f(keys[0]) then [keys[0]] + Select(keys[1..], f)
    else Select(keys[1..], f)
  }

  function ByWildcard(p: string, engine: Engine): string -> bool {
    key => WildcardSelects(p, key, engine)
  }

  function ByRegex(s: string, engine: Engine): string -> bool {
    key => RegexSelects(s, key, engine)
  }

  class PatternMatcher {
    const engine: Engine
    var regexCache: map<string, Regex>

    ghost predicate Valid()
      reads this
    {
      forall s | s in regexCache :: Compile(s, engine) == Some(regexCache[s])
    }

    constructor (engine: Engine)
      ensures Valid() && this.engine == engine
    {
      this.engine := engine;
      regexCache := map[];
    }

    method Match(pattern: string, keys: seq<string>) returns (r: seq<string>)
      requires Valid()
      modifies this
      ensures Valid()
      ensures pattern == "" ==> r == []
      ensures pattern != "" && '*' !in pattern && !IsRegex(pattern) ==> r == if pattern in keys then [pattern] else []
      ensures '*' in pattern ==> r == Select(keys, ByWildcard(pattern, engine))
      ensures pattern != "" && '*' !in pattern && IsRegex(pattern) ==> r == Select(keys, ByRegex(pattern, engine))
    {
      if pattern == "" {
        return [];
      }
      if '*' !in pattern && !IsRegex(pattern) {
        if pattern in keys {
          return [pattern];
        }
        return [];
      }
      if '*' in pattern {
        r := MatchWildcard(pattern, keys);
      } else {
        r := MatchRegex(pattern, keys);
      }
    }

    method MatchWildcard(pattern: string, keys: seq<string>) returns (matches: seq<string>)
      requires Valid() && '*' in pattern
      modifies this
      ensures Valid()
      ensures matches == Select(keys, ByWildcard(pattern, engine))
    {
      ghost var f := ByWildcard(pattern, engine);
      if pattern == "*" {
        SelectAll(keys, f);
        return keys;
      }
      if !StarFirst(pattern) && !StarLast(pattern) {
        matches := MatchRegex(WildcardToRegex(pattern), keys);
        SelectSame(keys, f, ByRegex(WildcardToRegex(pattern), engine));
        return;
      }
      matches := [];
      var i := 0;
      assert keys[0..] == keys;
      while i < |keys|
        invariant 0 <= i <= |keys| && Valid()
        invariant Select(keys, f) == matches + Select(keys[i..], f)
      {
        SelectStep(keys, i, matches, f);
        var key := keys[i];
        var hit := if StarFirst(pattern) && StarLast(pattern) then Contains(key, Trim(pattern))
                   else if StarFirst(pattern) then HasSuffix(key, pattern[1..])
                   else HasPrefix(key, pattern[..|pattern| - 1]);
        if hit {
          matches := matches + [key];
        }
        i := i + 1;
      }
      SelectEnds(keys, matches, f);
    }

    method MatchRegex(pattern: string, keys: seq<string>) returns (matches: seq<string>)
      requires Valid()
      modifies this
      ensures Valid()
      ensures matches == Select(keys, ByRegex(pattern, engine))
    {
      ghost var f := ByRegex(pattern, engine);
      var re: Regex;
      if pattern in regexCache {
        re := regexCache[pattern];
      } else {
        match Compile(pattern, engine) {
          case None =>
            SelectNone(keys, f);
            return [];
          case Some(compiled) =>
            re := compiled;
            regexCache := regexCache[pattern := re];
        }
      }
      matches := [];
      var i := 0;
      assert keys[0..] == keys;
      while i < |keys|
        invariant 0 <= i <= |keys| && Valid()
        invariant Select(keys, f) == matches + Select(keys[i..], f)
      {
        SelectStep(keys, i, matches, f);
        if Eval(re, keys[i]) {
          matches := matches + [keys[i]];
        }
        i := i + 1;
      }
      SelectEnds(keys, matches, f);
    }
  }

  lemma SelectStep(keys: seq<string>, i: nat, done: seq<string>, f: string -> bool)
    requires i < |keys|
    ensures done + Select(keys[i..], f) ==
            (if f(keys[i]) then done + [keys[i]] else done) + Select(keys[i + 1..], f)
  {
    assert keys[i..][1..] == keys[i + 1..];
  }

  lemma SelectEnds(keys: seq<string>, done: seq<string>, f: string -> bool)
    ensures done + Select(keys[|keys|..], f) == done
  {
  }

  lemma {:induction false} SelectAll(keys: seq<string>, f: string -> bool)
    requires forall key :: f(key)
    ensures Select(keys, f) == keys
  {
    if keys != [] {
      SelectAll(keys[1..], f);
    }
  }

  lemma {:induction false} SelectNone(keys: seq<string>, f: string -> bool)
    requires forall key :: !f(key)
    ensures Select(keys, f) == []
  {
    if keys != [] {
      SelectNone(keys[1..], f);
    }
  }

  lemma {:induction false} SelectSame(keys: seq<string>, f: string -> bool, g: string -> bool)
    requires forall key :: f(key) == g(key)
    ensures Select(keys, f) == Select(keys, g)
  {
    if keys != [] {
      SelectSame(keys[1..], f, g);
    }
  }

  /** A scan treats every key by itself and keeps their order. */
  lemma {:induction false} SelectConcat(a: seq<string>, b: seq<string>, f: string -> bool)
    ensures Select(a + b, f) == Select(a, f) + Select(b, f)
  {
    if a == [] {
      assert a + b == b;
    } else {
      assert (a + b)[1..] == a[1..] + b;
      SelectConcat(a[1..], b, f);
    }
  }

  /** Each accepted key is selected as often as it occurs, and no other. */
  lemma {:induction false} SelectCounts(keys: seq<string>, f: string -> bool, key: string)
    ensures multiset(Select(keys, f))[key] == if f(key) then multiset(keys)[key] else 0
  {
    if keys != [] {
      SelectCounts(keys[1..], f, key);
      assert keys == [keys[0]] + keys[1..];
    }
  }

  /** An anchored expression of the fragment selects what it means. */
  lemma AnchoredSelectsItsMeaning(body: string, key: string, engine: Engine)
    requires Parse(body).Some?
    ensures RegexSelects("^" + body + "$", key, engine) == Matches(Parse(body).value, key)
  {
    var s := "^" + body + "$";
    assert s[1..|s| - 1] == body;
  }

  /** Any other selects what the engine makes of it as it stands, and nothing when the engine rejects it. */
  lemma OtherExpressionAsksEngine(s: string, key: string, engine: Engine)
    requires forall body :: s == "^" + body + "$" ==> Parse(body).None?
    ensures RegexSelects(s, key, engine) == match engine(s) case Some(f) => f(key) case None => false
  {
    if |s| >= 2 && s[0] == '^' && s[|s| - 1] == '$' {
      assert s == "^" + s[1..|s| - 1] + "$";
    }
  }

  /** A pattern is taken for an expression exactly when it has one of these characters; a dot does not make it one. */
  lemma ExpressionIff(p: string)
    ensures IsRegex(p) <==>
            exists c :: c in p && (c == '[' || c == ']' || c == '(' || c == ')' || c == '^' || c == '$' || c == '+' ||
                                   c == '?' || c == '{' || c == '}' || c == '|')
  {
    if c :| c in p && (c == '[' || c == ']' || c == '(' || c == ')' || c == '^' || c == '$' || c == '+' ||
                       c == '?' || c == '{' || c == '}' || c == '|') {
      assert c in REGEX_CHARS;
      var i :| 0 <= i < |REGEX_CHARS| && REGEX_CHARS[i] == c;
    }
  }

  // How a pattern with a star and the glob it looks like compare; '?' stands for itself here.

  lemma RegexPathMeans(p: string, key: string, engine: Engine)
    ensures RegexSelects(WildcardToRegex(p), key, engine) == Matches(Translate(p, false), key)
  {
    var s := WildcardToRegex(p);
    assert s[1..|s| - 1] == WildcardBody(p);
    WildcardBodyParses(p);
  }

  lemma {:induction false} TrimLeftShape(p: string) returns (m: nat)
    ensures p == Stars(m) + TrimLeft(p) && (StarFirst(p) ==> m >= 1) && (TrimLeft(p) != "" ==> TrimLeft(p)[0] != '*')
  {
    m := 0;
    if StarFirst(p) {
      var k := TrimLeftShape(p[1..]);
      m := k + 1;
      assert p == "*" + p[1..];
    }
  }

  lemma {:induction false} TrimRightShape(p: string) returns (n: nat)
    ensures p == TrimRight(p) + Stars(n) && (StarLast(p) ==> n >= 1)
  {
    n := 0;
    if StarLast(p) {
      var k := TrimRightShape(p[..|p| - 1]);
      n := k + 1;
      StarsSnoc(k);
      assert p == p[..|p| - 1] + "*";
      assert p == TrimRight(p) + (Stars(k) + "*");
    }
  }

  lemma {:induction false} StarsSnoc(k: nat)
    ensures Stars(k) + "*" == Stars(k + 1)
  {
    if k > 0 {
      StarsSnoc(k - 1);
      assert Stars(k) + "*" == "*" + (Stars(k - 1) + "*");
    }
  }

  ghost predicate SelectsAsGlob(p: string, key: string, engine: Engine) {
    WildcardSelects(p, key, engine) == GlobMatch(p, key, false)
  }

  /** Without a fast path, the pattern selects as the glob on keys without newline. */
  lemma ComplexWildcardSelectsAsGlob(p: string, key: string, engine: Engine)
    requires '*' in p && !StarFirst(p) && !StarLast(p) && '\n' !in key
    ensures SelectsAsGlob(p, key, engine)
  {
    RegexPathMeans(p, key, engine);
    TranslateMeans(p, key, false);
  }

  lemma FastPathAgrees(p: string, key: string, engine: Engine)
    requires (StarFirst(p) || StarLast(p)) && '*' !in Remainder(p)
    ensures SelectsAsGlob(p, key, engine)
  {
    if p == "*" {
      StarMatchesAll(key, false);
    } else if StarFirst(p) && StarLast(p) {
      var m := TrimLeftShape(p);
      var rest := TrimLeft(p);
      if rest == "" {
        assert p == Stars(m);
        AllStars(m, key, false);
        assert ContainsAt(key, "", 0);
      } else {
        assert rest[|rest| - 1] == p[|p| - 1];
        var n := TrimRightShape(rest);
        ContainsGlob(m, Trim(p), n, key, false);
      }
    } else if StarFirst(p) {
      assert p == "*" + p[1..];
      SuffixGlob(p[1..], key, false);
    } else {
      assert p == p[..|p| - 1] + "*";
      PrefixGlob(p[..|p| - 1], key, false);
    }
  }

  /** A star inside what is compared literally: the glob accepts the erased pattern, the fast path cannot. */
  lemma FastPathRejectsErased(p: string, engine: Engine)
    requires (StarFirst(p) || StarLast(p)) && '*' in Remainder(p)
    ensures !SelectsAsGlob(p, Erase(p), engine)
  {
    EraseMatches(p, false);
    EraseLength(Remainder(p));
    EraseOfRemainder(p);
    StarLeavesNothing();
  }

  lemma StarLeavesNothing()
    ensures Trim("*") == ""
  {
    assert "*"[1..] == "";
    assert TrimLeft("") == "";
  }

  /** A pattern and what its fast path compares differ in stars only. */
  lemma EraseOfRemainder(p: string)
    requires StarFirst(p) || StarLast(p)
    ensures Erase(p) == Erase(Remainder(p))
  {
    if StarFirst(p) && StarLast(p) {
      EraseOfTrim(p);
    } else if StarLast(p) {
      EraseConcat(p[..|p| - 1], "*");
      assert p == p[..|p| - 1] + "*";
      EraseStars(1);
      assert Stars(1) == "*";
    }
  }

  lemma EraseOfTrim(p: string)
    ensures Erase(p) == Erase(Trim(p))
  {
    var m := TrimLeftShape(p);
    var n := TrimRightShape(TrimLeft(p));
    EraseConcat(Stars(m), TrimLeft(p));
    EraseConcat(Trim(p), Stars(n));
    EraseStars(m);
    EraseStars(n);
  }

  /** A starred pattern selects exactly the glob's keys if and only if it takes a fast path and no star is left in
      what that path compares literally. */
  lemma WildcardIsExactIff(p: string, engine: Engine)
    requires '*' in p
    ensures (forall key :: SelectsAsGlob(p, key, engine)) <==> (StarFirst(p) || StarLast(p)) && '*' !in Remainder(p)
  {
    if StarFirst(p) || StarLast(p) {
      if '*' in Remainder(p) {
        FastPathRejectsErased(p, engine);
      } else {
        forall key ensures SelectsAsGlob(p, key, engine) {
          FastPathAgrees(p, key, engine);
        }
      }
    } else {
      var key := Fill(p, false);
      FillMatches(p, false);
      RegexPathMeans(p, key, engine);
      if Matches(Translate(p, false), key) {
        MatchedNewlines(p, key, false);
      }
      assert !SelectsAsGlob(p, key, engine);
    }
  }

  ghost predicate AgreesWithL1(p: string, key: string, engine: Engine) {
    WildcardSelects(p, key, engine) == L.MatchesPattern(key, p)
  }

  /** The invalidation service and the L1 cache read a starred pattern alike exactly when it is "*" or ends, but does
      not begin, with a star: L1 honours neither "*suffix" nor "a*b". */
  lemma L1AgreesIff(p: string, engine: Engine)
    requires '*' in p
    ensures (forall key :: AgreesWithL1(p, key, engine)) <==> p == "*" || (StarLast(p) && !StarFirst(p))
  {
    if p != "*" && (StarFirst(p) || !StarLast(p)) {
      var key := L1Misses(p, engine);
      assert !AgreesWithL1(p, key, engine);
    }
  }

  /** A key the invalidation service matches and the L1 cache does not. */
  lemma L1Misses(p: string, engine: Engine) returns (key: string)
    requires '*' in p && p != "*" && (StarFirst(p) || !StarLast(p))
    ensures WildcardSelects(p, key, engine) && !L.MatchesPattern(key, p)
  {
    if StarFirst(p) && StarLast(p) {
      key := Trim(p);
      TrimIsShorter(p);
      assert ContainsAt(key, key, 0);
    } else if StarFirst(p) {
      key := p[1..];
    } else {
      key := Erase(p);
      EraseMatchesItems(p, false);
      RegexPathMeans(p, key, engine);
      EraseLength(p);
    }
  }

  lemma TrimIsShorter(p: string)
    requires StarFirst(p) && StarLast(p) && p != "*"
    ensures |Trim(p)| + 2 <= |p|
  {
    var m := TrimLeftShape(p);
    var rest := TrimLeft(p);
    StarsLength(m);
    if rest != "" {
      assert rest[|rest| - 1] == p[|p| - 1];
      var n := TrimRightShape(rest);
      StarsLength(n);
    }
  }

  lemma {:induction false} StarsLength(n: nat)
    ensures |Stars(n)| == n
  {
    if n > 0 {
      StarsLength(n - 1);
    }
  }
}
