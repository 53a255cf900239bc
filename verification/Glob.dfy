/** Globs, and the meaning of the regular expressions they compile to. Strings are sequences of characters. */
module Globs {

  /** The meaning of a glob: '*' stands for any text, '?' for any one character when `q` says so, and every other
      character for itself. */
  ghost predicate GlobMatch(p: string, key: string, q: bool)
    decreases p
  {
    if p == "" then key == ""
    else if p[0] == '*' then exists i :: 0 <= i <= |key| && GlobMatch(p[1..], key[i..], q)
    else if p[0] == '?' && q then key != "" && GlobMatch(p[1..], key[1..], q)
    else key != "" && key[0] == p[0] && GlobMatch(p[1..], key[1..], q)
  }

  predicate HasPrefix(key: string, s: string) {
    s <= key
  }

  predicate HasSuffix(key: string, s: string) {
    |s| <= |key| && key[|key| - |s|..] == s
  }

  predicate ContainsAt(key: string, s: string, i: int) {
    0 <= i <= |key| - |s| && key[i..i + |s|] == s
  }

  predicate Contains(key: string, s: string) {
    exists i :: 0 <= i <= |key| && ContainsAt(key, s, i)
  }

  /** No character of s is a wildcard. */
  predicate Literal(s: string, q: bool) {
    '*' !in s && (q ==> '?' !in s)
  }

  /** A literal beginning is matched character by character. */
  lemma {:induction false} LiteralPrefix(s: string, rest: string, key: string, q: bool)
    requires Literal(s, q)
    ensures GlobMatch(s + rest, key, q) <==> HasPrefix(key, s) && GlobMatch(rest, key[|s|..], q)
  {
    if s == "" {
      assert s + rest == rest && key[0..] == key;
    } else {
      assert (s + rest)[1..] == s[1..] + rest;
      if key != "" && key[0] == s[0] {
        assert Literal(s[1..], q);
        LiteralPrefix(s[1..], rest, key[1..], q);
        assert HasPrefix(key, s) <==> HasPrefix(key[1..], s[1..]) by {
          assert s == [s[0]] + s[1..] && key == [key[0]] + key[1..];
        }
        if HasPrefix(key, s) {
          assert key[1..][|s[1..]|..] == key[|s|..];
        }
      }
    }
  }

  lemma StarMatchesAll(key: string, q: bool)
    ensures GlobMatch("*", key, q)
  {
    assert key[|key|..] == "";
    assert "*"[1..] == "";
    assert GlobMatch("*"[1..], key[|key|..], q);
  }

  lemma PrefixGlob(s: string, key: string, q: bool)
    requires Literal(s, q)
    ensures GlobMatch(s + "*", key, q) <==> HasPrefix(key, s)
  {
    LiteralPrefix(s, "*", key, q);
    if HasPrefix(key, s) {
      StarMatchesAll(key[|s|..], q);
    }
  }

  lemma LiteralGlob(s: string, key: string, q: bool)
    requires Literal(s, q)
    ensures GlobMatch(s, key, q) <==> key == s
  {
    LiteralPrefix(s, "", key, q);
    assert s + "" == s;
  }

  lemma SuffixGlob(s: string, key: string, q: bool)
    requires Literal(s, q)
    ensures GlobMatch("*" + s, key, q) <==> HasSuffix(key, s)
  {
    var p := "*" + s;
    assert p[1..] == s;
    forall i | 0 <= i <= |key| ensures GlobMatch(p[1..], key[i..], q) <==> key[i..] == s {
      LiteralGlob(s, key[i..], q);
    }
    if HasSuffix(key, s) {
      assert GlobMatch(p[1..], key[|key| - |s|..], q);
    }
  }

  function Stars(n: nat): string {
    if n == 0 then "" else "*" + Stars(n - 1)
  }

  /** The glob matches what is left of the key after skipping some of it. */
  ghost predicate MatchesSomeRest(p: string, key: string, q: bool) {
    exists i :: 0 <= i <= |key| && GlobMatch(p, key[i..], q)
  }

  /** A run of stars in front says as much as one. */
  lemma {:induction false} LeadingStars(n: nat, rest: string, key: string, q: bool)
    requires n >= 1
    ensures GlobMatch(Stars(n) + rest, key, q) <==> MatchesSomeRest(rest, key, q)
  {
    var p := Stars(n) + rest;
    assert p[1..] == Stars(n - 1) + rest;
    if n == 1 {
      assert p[1..] == rest;
    } else {
      forall i | 0 <= i <= |key| ensures GlobMatch(p[1..], key[i..], q) <==> MatchesSomeRest(rest, key[i..], q) {
        LeadingStars(n - 1, rest, key[i..], q);
      }
      SkipsCompose(p[1..], rest, key, q);
    }
  }

  /** Skipping twice skips once. */
  lemma SkipsCompose(p: string, rest: string, key: string, q: bool)
    requires forall i | 0 <= i <= |key| :: GlobMatch(p, key[i..], q) <==> MatchesSomeRest(rest, key[i..], q)
    ensures MatchesSomeRest(p, key, q) <==> MatchesSomeRest(rest, key, q)
  {
    if i :| 0 <= i <= |key| && GlobMatch(p, key[i..], q) {
      var j :| 0 <= j <= |key[i..]| && GlobMatch(rest, key[i..][j..], q);
      assert key[i..][j..] == key[i + j..];
    }
    if MatchesSomeRest(rest, key, q) {
      assert key[0..] == key;
      assert GlobMatch(p, key[0..], q);
    }
  }

  lemma AllStars(n: nat, key: string, q: bool)
    requires n >= 1
    ensures GlobMatch(Stars(n), key, q)
  {
    LeadingStars(n, "", key, q);
    assert Stars(n) + "" == Stars(n);
    assert key[|key|..] == "";
    assert GlobMatch("", key[|key|..], q);
  }

  lemma ContainsGlob(m: nat, s: string, n: nat, key: string, q: bool)
    requires m >= 1 && n >= 1 && Literal(s, q)
    ensures GlobMatch(Stars(m) + (s + Stars(n)), key, q) <==> Contains(key, s)
  {
    LeadingStars(m, s + Stars(n), key, q);
    forall i | 0 <= i <= |key| ensures GlobMatch(s + Stars(n), key[i..], q) <==> ContainsAt(key, s, i) {
      LiteralPrefix(s, Stars(n), key[i..], q);
      if HasPrefix(key[i..], s) {
        AllStars(n, key[i..][|s|..], q);
        assert key[i..][..|s|] == key[i..i + |s|];
      }
      if ContainsAt(key, s, i) {
        assert key[i..][..|s|] == key[i..i + |s|];
      }
    }
  }

  /** The pattern with its stars taken out: a text the glob matches with every star empty. */
  function Erase(p: string): string {
    if p == "" then "" else if p[0] == '*' then Erase(p[1..]) else [p[0]] + Erase(p[1..])
  }

  lemma {:induction false} EraseMatches(p: string, q: bool)
    ensures GlobMatch(p, Erase(p), q)
  {
    if p != "" {
      EraseMatches(p[1..], q);
      var key := Erase(p);
      if p[0] == '*' {
        assert key[0..] == key;
        assert GlobMatch(p[1..], key[0..], q);
      } else {
        assert key[1..] == Erase(p[1..]);
      }
    }
  }

  lemma {:induction false} EraseConcat(a: string, b: string)
    ensures Erase(a + b) == Erase(a) + Erase(b)
  {
    if a == "" {
      assert a + b == b;
    } else {
      assert (a + b)[1..] == a[1..] + b;
      EraseConcat(a[1..], b);
    }
  }

  lemma {:induction false} EraseLength(p: string)
    ensures |Erase(p)| <= |p|
    ensures |Erase(p)| == |p| <==> '*' !in p
  {
    if p != "" {
      EraseLength(p[1..]);
      assert p == [p[0]] + p[1..];
    }
  }

  lemma {:induction false} EraseStars(n: nat)
    ensures Erase(Stars(n)) == ""
  {
    if n > 0 {
      EraseStars(n - 1);
      assert Stars(n)[1..] == Stars(n - 1);
    }
  }

  lemma {:induction false} GlobMatchesItself(p: string, q: bool)
    ensures GlobMatch(p, p, q)
  {
    if p != "" {
      GlobMatchesItself(p[1..], q);
      assert p[0] == '*' ==> GlobMatch(p[1..], p[1..], q);
    }
  }
}

/** The fragment of regular expression syntax that the translations emit, with RE2's meaning: `.` is any character but
    newline, `x*` any number of x. */
module Regexes {
  import opened Collections
  import opened Globs

  datatype Atom = Lit(c: char) | Dot

  datatype Item = Item(atom: Atom, starred: bool)

  /** The characters with a meaning of their own in an expression. */
  predicate IsSyntax(c: char) {
    || c == '.' || c == '*' || c == '+' || c == '?' || c == '(' || c == ')' || c == '|'
    || c == '[' || c == ']' || c == '{' || c == '}' || c == '^' || c == '$' || c == '\\'
  }

  /** A compiled expression: one of the fragment, or whatever the regexp package makes of any other. */
  datatype Regex = Known(items: seq<Item>) | Other(matcher: string -> bool)

  /** The regexp package on expressions outside the fragment; None when it rejects them. */
  type Engine = string -> Option<string -> bool>

  /** Compilation of ^body$. */
  function CompileAnchored(body: string, engine: Engine): Option<Regex> {
    match Parse(body)
    case Some(items) => Some(Known(items))
    case None => CompileOther("^" + body + "$", engine)
  }

  function CompileOther(s: string, engine: Engine): Option<Regex> {
    match engine(s)
    case Some(f) => Some(Other(f))
    case None => None
  }

  function Eval(r: Regex, key: string): bool {
    match r
    case Known(items) => Matches(items, key)
    case Other(f) => f(key)
  }

  /** Reads an expression; None for anything outside the fragment. */
  function Parse(s: string): Option<seq<Item>>
    decreases |s|, 0
  {
    if s == "" then Some([])
    else if s[0] == '\\' then
      if |s| >= 2 && IsSyntax(s[1]) then ParseAfter(Lit(s[1]), s[2..]) else None
    else if s[0] == '.' then ParseAfter(Dot, s[1..])
    else if IsSyntax(s[0]) then None
    else ParseAfter(Lit(s[0]), s[1..])
  }

  function ParseAfter(a: Atom, s: string): Option<seq<Item>>
    decreases |s|, 1
  {
    var starred := s != "" && s[0] == '*';
    match Parse(if starred then s[1..] else s)
    case None => None
    case Some(items) => Some([Item(a, starred)] + items)
  }

  predicate AtomMatches(a: Atom, c: char) {
    match a
    case Lit(d) => c == d
    case Dot => c != '\n'
  }

  /** The whole key is matched, as under `^...$`. */
  predicate Matches(items: seq<Item>, key: string)
    decreases |items| + |key|
  {
    if items == [] then key == ""
    else if items[0].starred then
      Matches(items[1..], key) || (key != "" && AtomMatches(items[0].atom, key[0]) && Matches(items, key[1..]))
    else key != "" && AtomMatches(items[0].atom, key[0]) && Matches(items[1..], key[1..])
  }

  /** The items a glob calls for. */
  function Translate(p: string, q: bool): seq<Item> {
    if p == "" then []
    else [if p[0] == '*' then Item(Dot, true)
          else if p[0] == '?' && q then Item(Dot, false)
          else Item(Lit(p[0]), false)]
         + Translate(p[1..], q)
  }

  lemma {:induction false} StarMatches(rest: seq<Item>, key: string)
    requires '\n' !in key
    ensures Matches([Item(Dot, true)] + rest, key) <==> exists i :: 0 <= i <= |key| && Matches(rest, key[i..])
    decreases |key|
  {
    var items := [Item(Dot, true)] + rest;
    assert items[1..] == rest;
    assert key[0..] == key;
    if key != "" {
      StarMatches(rest, key[1..]);
      forall i | 0 <= i <= |key[1..]| ensures key[1..][i..] == key[i + 1..] {
      }
      if i :| 0 <= i <= |key| && Matches(rest, key[i..]) && i > 0 {
        assert key[1..][i - 1..] == key[i..];
      }
    }
  }

  /** On keys without newline the items mean what the glob means. */
  lemma {:induction false} TranslateMeans(p: string, key: string, q: bool)
    requires '\n' !in key
    ensures Matches(Translate(p, q), key) <==> GlobMatch(p, key, q)
    decreases p
  {
    if p != "" {
      var items := Translate(p, q);
      assert items[1..] == Translate(p[1..], q);
      if p[0] == '*' {
        StarMatches(Translate(p[1..], q), key);
        forall i | 0 <= i <= |key| ensures Matches(Translate(p[1..], q), key[i..]) <==> GlobMatch(p[1..], key[i..], q) {
          TranslateMeans(p[1..], key[i..], q);
        }
      } else if key != "" {
        TranslateMeans(p[1..], key[1..], q);
      }
    }
  }

  function Newlines(s: string): nat {
    if s == "" then 0 else (if s[0] == '\n' then 1 else 0) + Newlines(s[1..])
  }

  /** Wildcards never match a newline, so a matched key has exactly the pattern's own newlines. */
  lemma {:induction false} MatchedNewlines(p: string, key: string, q: bool)
    requires Matches(Translate(p, q), key)
    ensures Newlines(key) == Newlines(p)
    decreases |p| + |key|
  {
    if p != "" {
      var items := Translate(p, q);
      assert items[1..] == Translate(p[1..], q);
      if p[0] == '*' {
        if Matches(items[1..], key) {
          MatchedNewlines(p[1..], key, q);
        } else {
          MatchedNewlines(p, key[1..], q);
        }
      } else {
        MatchedNewlines(p[1..], key[1..], q);
      }
    }
  }

  /** The pattern with a newline for each wildcard: the glob matches it, the expression does not. */
  function Fill(p: string, q: bool): string {
    if p == "" then ""
    else [if p[0] == '*' || (p[0] == '?' && q) then '\n' else p[0]] + Fill(p[1..], q)
  }

  lemma {:induction false} FillMatches(p: string, q: bool)
    ensures GlobMatch(p, Fill(p, q), q)
    ensures Newlines(Fill(p, q)) >= Newlines(p)
    ensures !Literal(p, q) ==> Newlines(Fill(p, q)) > Newlines(p)
  {
    if p != "" {
      FillMatches(p[1..], q);
      var key := Fill(p, q);
      assert key[1..] == Fill(p[1..], q);
      assert p == [p[0]] + p[1..];
      if p[0] == '*' {
        assert GlobMatch(p[1..], key[1..], q);
      }
    }
  }

  /** Beyond newline-free keys the two meanings agree exactly when the pattern has no wildcard. */
  lemma TranslationIsExactIffLiteral(p: string, q: bool)
    ensures (forall key :: Matches(Translate(p, q), key) <==> GlobMatch(p, key, q)) <==> Literal(p, q)
  {
    if Literal(p, q) {
      forall key ensures Matches(Translate(p, q), key) <==> GlobMatch(p, key, q) {
        LiteralItems(p, key, q);
        LiteralGlob(p, key, q);
      }
    } else {
      FillMatches(p, q);
      if Matches(Translate(p, q), Fill(p, q)) {
        MatchedNewlines(p, Fill(p, q), q);
      }
      assert !(Matches(Translate(p, q), Fill(p, q)) <==> GlobMatch(p, Fill(p, q), q));
    }
  }

  lemma {:induction false} LiteralItems(p: string, key: string, q: bool)
    requires Literal(p, q)
    ensures Matches(Translate(p, q), key) <==> key == p
    decreases p
  {
    if p != "" {
      assert Translate(p, q)[1..] == Translate(p[1..], q);
      if key != "" {
        LiteralItems(p[1..], key[1..], q);
        assert key == [key[0]] + key[1..] && p == [p[0]] + p[1..];
      }
    }
  }

  /** Every star empty: the expression matches the erased pattern. */
  lemma {:induction false} EraseMatchesItems(p: string, q: bool)
    requires q ==> '?' !in p
    ensures Matches(Translate(p, q), Erase(p))
  {
    if p != "" {
      assert p == [p[0]] + p[1..];
      EraseMatchesItems(p[1..], q);
      assert Translate(p, q)[1..] == Translate(p[1..], q);
      if p[0] != '*' {
        assert Erase(p)[1..] == Erase(p[1..]);
      }
    }
  }

  // The two translations.

  const META := "\\.+*?()|[]{}^$"

  predicate IsMeta(c: char) {
    c in META
  }

  /** What the translators quote is what has to be quoted. */
  lemma MetaIsSyntax(c: char)
    ensures IsMeta(c) <==> IsSyntax(c)
  {
  }

  /** globToRegex: '*' to `.*`, '?' to `.`, metacharacters escaped. */
  function GlobToRegex(p: string): string {
    if p == "" then "" else Piece(p[0]) + GlobToRegex(p[1..])
  }

  function Piece(c: char): string {
    if c == '*' then ".*" else if c == '?' then "." else if IsMeta(c) then ['\\', c] else [c]
  }

  /** regexp.QuoteMeta. */
  function QuoteMeta(p: string): string {
    if p == "" then ""
    else if IsMeta(p[0]) then ['\\', p[0]] + QuoteMeta(p[1..])
    else [p[0]] + QuoteMeta(p[1..])
  }

  /** strings.ReplaceAll of `\*` by `.*`, left to right. */
  function ReplaceStars(s: string): string {
    if s == "" then ""
    else if |s| >= 2 && s[0] == '\\' && s[1] == '*' then ".*" + ReplaceStars(s[2..])
    else [s[0]] + ReplaceStars(s[1..])
  }

  /** The body of wildcardToRegex, between its anchors. */
  function WildcardBody(p: string): string {
    ReplaceStars(QuoteMeta(p))
  }

  lemma ParseEscaped(c: char, rest: string)
    requires IsMeta(c) && (rest == "" || rest[0] != '*')
    ensures Parse(['\\', c] + rest) ==
            match Parse(rest) case None => None case Some(items) => Some([Item(Lit(c), false)] + items)
  {
    MetaIsSyntax(c);
    var s := ['\\', c] + rest;
    assert s[2..] == rest;
  }

  lemma ParsePlain(c: char, rest: string)
    requires !IsMeta(c) && (rest == "" || rest[0] != '*')
    ensures Parse([c] + rest) ==
            match Parse(rest) case None => None case Some(items) => Some([Item(Lit(c), false)] + items)
  {
    MetaIsSyntax(c);
    var s := [c] + rest;
    assert s[1..] == rest;
    assert s[0] != '\\' && s[0] != '.';
  }

  lemma ParseDot(rest: string)
    requires rest == "" || rest[0] != '*'
    ensures Parse("." + rest) ==
            match Parse(rest) case None => None case Some(items) => Some([Item(Dot, false)] + items)
  {
    var s := "." + rest;
    assert s[1..] == rest;
  }

  lemma ParseDotStar(rest: string)
    ensures Parse(".*" + rest) ==
            match Parse(rest) case None => None case Some(items) => Some([Item(Dot, true)] + items)
  {
    var s := ".*" + rest;
    assert s[1..][1..] == rest;
  }

  /** The emitted string reads back as the items the glob calls for. */
  lemma {:induction false} GlobToRegexParses(p: string)
    ensures Parse(GlobToRegex(p)) == Some(Translate(p, true))
    ensures GlobToRegex(p) != "" ==> GlobToRegex(p)[0] != '*'
  {
    if p != "" {
      var rest := GlobToRegex(p[1..]);
      GlobToRegexParses(p[1..]);
      if p[0] == '*' {
        ParseDotStar(rest);
      } else if p[0] == '?' {
        ParseDot(rest);
      } else if IsMeta(p[0]) {
        ParseEscaped(p[0], rest);
      } else {
        ParsePlain(p[0], rest);
      }
    }
  }

  /** The escape-then-replace passes put `.*` for each star and quote the rest. */
  lemma {:induction false} WildcardBodyStep(p: string)
    requires p != ""
    ensures WildcardBody(p) ==
            (if p[0] == '*' then ".*" else if IsMeta(p[0]) then ['\\', p[0]] else [p[0]]) + WildcardBody(p[1..])
  {
    var rest := QuoteMeta(p[1..]);
    assert rest == "" || rest[0] != '*';
    if p[0] == '*' {
      ReplaceStarPair(rest);
    } else if IsMeta(p[0]) {
      ReplacePlainPair(p[0], rest);
    } else {
      ReplaceHead(p[0], rest);
    }
  }

  lemma ReplaceStarPair(rest: string)
    ensures ReplaceStars(['\\', '*'] + rest) == ".*" + ReplaceStars(rest)
  {
    assert (['\\', '*'] + rest)[2..] == rest;
  }

  /** A character that does not start an escaped star stays. */
  lemma ReplaceHead(c: char, rest: string)
    requires c != '\\' || rest == "" || rest[0] != '*'
    ensures ReplaceStars([c] + rest) == [c] + ReplaceStars(rest)
  {
    assert ([c] + rest)[1..] == rest;
  }

  lemma ReplacePlainPair(c: char, rest: string)
    requires c != '*' && (rest == "" || rest[0] != '*')
    ensures ReplaceStars(['\\', c] + rest) == ['\\', c] + ReplaceStars(rest)
  {
    ReplaceHead(c, rest);
    ReplaceHead('\\', [c] + rest);
    assert ['\\'] + ([c] + rest) == ['\\', c] + rest;
    assert ['\\'] + ([c] + ReplaceStars(rest)) == ['\\', c] + ReplaceStars(rest);
  }

  lemma {:induction false} WildcardBodyParses(p: string)
    ensures Parse(WildcardBody(p)) == Some(Translate(p, false))
    ensures WildcardBody(p) != "" ==> WildcardBody(p)[0] != '*'
  {
    if p != "" {
      WildcardBodyStep(p);
      WildcardBodyParses(p[1..]);
      var rest := WildcardBody(p[1..]);
      if p[0] == '*' {
        ParseDotStar(rest);
      } else if IsMeta(p[0]) {
        ParseEscaped(p[0], rest);
      } else {
        ParsePlain(p[0], rest);
      }
    }
  }

  /** The two translations emit the same string exactly when the pattern has no '?'. */
  lemma TranslationsCoincideIff(p: string)
    ensures WildcardBody(p) == GlobToRegex(p) <==> '?' !in p
  {
    TranslationLengths(p);
  }

  lemma {:induction false} TranslationLengths(p: string)
    ensures |WildcardBody(p)| >= |GlobToRegex(p)|
    ensures '?' in p ==> |WildcardBody(p)| > |GlobToRegex(p)|
    ensures '?' !in p ==> WildcardBody(p) == GlobToRegex(p)
  {
    if p != "" {
      WildcardBodyStep(p);
      TranslationLengths(p[1..]);
      assert p == [p[0]] + p[1..];
    }
  }

  /** A text without syntax is its own translation. */
  lemma {:induction false} PlainTextStays(p: string)
    requires forall c | c in p :: !IsSyntax(c)
    ensures GlobToRegex(p) == p
  {
    if p != "" {
      assert p == [p[0]] + p[1..];
      MetaIsSyntax(p[0]);
      PlainTextStays(p[1..]);
    }
  }

  /** Compiled, it matches itself and nothing else. */
  lemma PlainTextMatchesItself(p: string, key: string)
    requires forall c | c in p :: !IsSyntax(c)
    ensures Parse(p).Some? && (Matches(Parse(p).value, key) <==> key == p)
  {
    PlainTextStays(p);
    GlobToRegexParses(p);
    LiteralItems(p, key, true);
  }

  /** Compiling a glob keeps its meaning on keys without newline. */
  lemma GlobCompilationPreservesMeaning(p: string, key: string)
    requires '\n' !in key
    ensures Parse(GlobToRegex(p)).Some?
    ensures Matches(Parse(GlobToRegex(p)).value, key) <==> GlobMatch(p, key, true)
  {
    GlobToRegexParses(p);
    TranslateMeans(p, key, true);
  }

  /** So does wildcardToRegex, for which '?' stands for itself. */
  lemma WildcardCompilationPreservesMeaning(p: string, key: string)
    requires '\n' !in key
    ensures Parse(WildcardBody(p)).Some?
    ensures Matches(Parse(WildcardBody(p)).value, key) <==> GlobMatch(p, key, false)
  {
    WildcardBodyParses(p);
    TranslateMeans(p, key, false);
  }
}
