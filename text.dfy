/** The few .NET string operations the configuration code relies on:
    `Char.IsWhiteSpace`, `Trim`, `TrimStart`, `StartsWith` of one character,
    `Split(c, 2)`, `string.Join`, `new string(' ', n)` and ASCII `ToLower`. */
module Text {

  /** `Char.IsWhiteSpace`: the Unicode space, line and paragraph separators
      together with U+0009..U+000D, U+0085 and U+00A0. */
  predicate IsWhite(c: char) {
    c in WhiteChars
  }

  const WhiteChars: set<char> := {
    '\U{9}', '\U{A}', '\U{B}', '\U{C}', '\U{D}', '\U{20}', '\U{85}', '\U{A0}', '\U{1680}',
    '\U{2000}', '\U{2001}', '\U{2002}', '\U{2003}', '\U{2004}', '\U{2005}', '\U{2006}', '\U{2007}', '\U{2008}',
    '\U{2009}', '\U{200A}', '\U{2028}', '\U{2029}', '\U{202F}', '\U{205F}', '\U{3000}'}

  /** `string.IsNullOrWhiteSpace` for a non-null string. */
  predicate AllWhite(s: string) {
    forall i :: 0 <= i < |s| ==> IsWhite(s[i])
  }

  /** Removes the leading characters satisfying `p` (`TrimStart`).  Its
      properties are stated by `TrimStartFacts`. */
  function TrimStartWith(s: string, p: char -> bool): string {
    if s != [] && p(s[0]) then TrimStartWith(s[1..], p) else s
  }

  /** Removes the trailing characters satisfying `p` (`TrimEnd`). */
  function TrimEndWith(s: string, p: char -> bool): string {
    if s != [] && p(s[|s| - 1]) then TrimEndWith(s[..|s| - 1], p) else s
  }

  /** `s.Trim()` for the character class `p`. */
  function TrimWith(s: string, p: char -> bool): string {
    TrimEndWith(TrimStartWith(s, p), p)
  }

  /** `s.TrimStart()`. */
  function TrimStart(s: string): string {
    TrimStartWith(s, IsWhite)
  }

  /** `s.Trim()`. */
  function Trim(s: string): string {
    TrimWith(s, IsWhite)
  }

  /** `TrimStart` drops a maximal run of `p` characters from the front and
      keeps the rest as it is. */
  lemma {:induction false} TrimStartFacts(s: string, p: char -> bool)
    ensures var r := TrimStartWith(s, p);
      && |r| <= |s| && r == s[|s| - |r|..]
      && (forall i :: 0 <= i < |s| - |r| ==> p(s[i]))
      && (r == [] || !p(r[0]))
  {
    if s != [] && p(s[0]) {
      TrimStartFacts(s[1..], p);
    }
  }

  /** `TrimEnd` drops a maximal run of `p` characters from the back. */
  lemma {:induction false} TrimEndFacts(s: string, p: char -> bool)
    ensures var r := TrimEndWith(s, p);
      && |r| <= |s| && r == s[..|r|]
      && (forall i :: |r| <= i < |s| ==> p(s[i]))
      && (r == [] || !p(r[|r| - 1]))
  {
    if s != [] && p(s[|s| - 1]) {
      TrimEndFacts(s[..|s| - 1], p);
    }
  }

  /** `Trim` removes a `p`-run at each end and nothing else: the result is
      a slice of `s` that neither starts nor ends with `p`, and it is empty
      exactly when every character of `s` satisfies `p`. */
  lemma TrimFacts(s: string, p: char -> bool) returns (a: nat)
    ensures var r := TrimWith(s, p);
      && a + |r| <= |s|
      && s == s[..a] + r + s[a + |r|..]
      && (forall i :: 0 <= i < a ==> p(s[i]))
      && (forall i :: a + |r| <= i < |s| ==> p(s[i]))
      && (r != [] ==> !p(r[0]) && !p(r[|r| - 1]))
      && (r == [] <==> forall i :: 0 <= i < |s| ==> p(s[i]))
  {
    var front := TrimStartWith(s, p);
    var r := TrimEndWith(front, p);
    TrimStartFacts(s, p);
    TrimEndFacts(front, p);
    a := |s| - |front|;
    assert front == s[a..];
    assert r == front[..|r|];
    assert s[a..a + |r|] == front[..|r|];
    forall i | a + |r| <= i < |s| ensures p(s[i]) {
      assert s[i] == front[i - a];
    }
    assert s == s[..a] + s[a..a + |r|] + s[a + |r|..];
    assert r != [] ==> r[0] == front[0];
  }

  /** `Trim` with the .NET white-space class. */
  lemma TrimWhite(s: string)
    ensures var r := Trim(s);
      && |r| <= |s|
      && (r == [] <==> AllWhite(s))
      && (r != [] ==> !IsWhite(r[0]) && !IsWhite(r[|r| - 1]))
  {
    var _ := TrimFacts(s, IsWhite);
  }

  /** A string made of a `p`-run, a middle that neither starts nor ends in
      `p`, and another `p`-run trims to that middle. */
  lemma TrimWithOf(front: string, middle: string, back: string, p: char -> bool)
    requires forall i :: 0 <= i < |front| ==> p(front[i])
    requires forall i :: 0 <= i < |back| ==> p(back[i])
    requires middle != [] && !p(middle[0]) && !p(middle[|middle| - 1])
    ensures TrimWith(front + middle + back, p) == middle
  {
    TrimStartPast(front, middle + back, p);
    assert front + middle + back == front + (middle + back);
    TrimEndPast(middle, back, p);
  }

  lemma {:induction false} TrimStartPast(run: string, rest: string, p: char -> bool)
    requires forall i :: 0 <= i < |run| ==> p(run[i])
    requires rest == [] || !p(rest[0])
    ensures TrimStartWith(run + rest, p) == rest
  {
    if run != [] {
      assert (run + rest)[1..] == run[1..] + rest;
      TrimStartPast(run[1..], rest, p);
    }
  }

  lemma {:induction false} TrimEndPast(rest: string, run: string, p: char -> bool)
    requires forall i :: 0 <= i < |run| ==> p(run[i])
    requires rest == [] || !p(rest[|rest| - 1])
    ensures TrimEndWith(rest + run, p) == rest
  {
    if run != [] {
      assert (rest + run)[..|rest + run| - 1] == rest + run[..|run| - 1];
      TrimEndPast(rest, run[..|run| - 1], p);
    }
  }

  /** `s.Length - s.TrimStart().Length`: the number of leading white-space
      characters. */
  function IndentWidth(s: string): (n: nat)
    ensures n <= |s|
    ensures forall i :: 0 <= i < n ==> IsWhite(s[i])
    ensures n == |s| || !IsWhite(s[n])
  {
    var rest := TrimStartWith(s, IsWhite);
    TrimStartFacts(s, IsWhite);
    assert rest != [] ==> rest[0] == s[|s| - |rest|];
    |s| - |rest|
  }

  /** `new string(' ', n)`. */
  function Spaces(n: nat): string {
    seq(n, _ => ' ')
  }

  /** `s.StartsWith(c)` for a one-character string `c`, compared ordinally:
      the first character is `c`. */
  predicate StartsWith(s: string, c: char) {
    |s| > 0 && s[0] == c
  }

  /** `s.EndsWith(c)` for a one-character string `c`, compared ordinally:
      the last character is `c`. */
  predicate EndsWith(s: string, c: char) {
    |s| > 0 && s[|s| - 1] == c
  }

  /** Index of the first occurrence of `c` in `s`. */
  function IndexOf(s: string, c: char): (i: nat)
    requires c in s
    ensures i < |s| && s[i] == c && c !in s[..i]
  {
    if s[0] == c then 0 else 1 + IndexOf(s[1..], c)
  }

  /** `s.Split(c, 2)` when `s` contains `c`: the text before the first `c`
      and everything after it. */
  function SplitFirst(s: string, c: char): (r: (string, string))
    requires c in s
    ensures s == r.0 + [c] + r.1
    ensures c !in r.0
  {
    var i := IndexOf(s, c);
    assert s == s[..i] + [c] + s[i + 1..];
    (s[..i], s[i + 1..])
  }

  /** The split at the first `c` is the only one whose left part holds no `c`. */
  lemma SplitFirstUnique(s: string, c: char, left: string, right: string)
    requires s == left + [c] + right && c !in left
    ensures SplitFirst(s, c) == (left, right)
  {
    var r := SplitFirst(s, c);
    var i := IndexOf(s, c);
    assert s[..|left|] == left && s[|left|] == c;
    assert r.0 == s[..|left|] == left;
    assert r.1 == s[|left| + 1..] == right;
  }

  /** `string.Join(sep, parts)`.  What it keeps is stated by `JoinSplits`
      and `JoinInjective`. */
  function Join(sep: string, parts: seq<string>): string {
    if |parts| == 0 then ""
    else if |parts| == 1 then parts[0]
    else Join(sep, parts[..|parts| - 1]) + sep + parts[|parts| - 1]
  }

  predicate NoneContains(parts: seq<string>, c: char) {
    forall i :: 0 <= i < |parts| ==> c !in parts[i]
  }

  /** Joining with `c` puts a `c` between every two parts: the joined text
      holds a `c` exactly when there are two parts or one part holds it. */
  lemma {:induction false} JoinSplits(c: char, parts: seq<string>)
    requires |parts| > 0
    ensures NoneContains(parts, c) ==> (c in Join([c], parts) <==> |parts| > 1)
    ensures |parts| > 1 ==> Join([c], parts) == Join([c], parts[..|parts| - 1]) + [c] + parts[|parts| - 1]
  {
    if |parts| > 1 {
      var init := Join([c], parts[..|parts| - 1]);
      assert (init + [c] + parts[|parts| - 1])[|init|] == c;
    }
  }

  /** Joining with a separator character that no part contains loses
      nothing: the joined text determines the parts. */
  lemma {:induction false} JoinInjective(c: char, ps: seq<string>, qs: seq<string>)
    requires |ps| > 0 && |qs| > 0 && NoneContains(ps, c) && NoneContains(qs, c)
    requires Join([c], ps) == Join([c], qs)
    ensures ps == qs
  {
    JoinSplits(c, ps);
    JoinSplits(c, qs);
    if |ps| > 1 && |qs| > 1 {
      var ip, iq := ps[..|ps| - 1], qs[..|qs| - 1];
      LastPartUnique(Join([c], ip), ps[|ps| - 1], Join([c], iq), qs[|qs| - 1], c);
      JoinInjective(c, ip, iq);
      assert ps == ip + [ps[|ps| - 1]] && qs == iq + [qs[|qs| - 1]];
    }
  }

  /** The text after the last `c` is determined by the whole text. */
  lemma LastPartUnique(x: string, u: string, y: string, v: string, c: char)
    requires x + [c] + u == y + [c] + v && c !in u && c !in v
    ensures x == y && u == v
  {
    var s := x + [c] + u;
    LastAtSplit(x, u, c);
    LastAtSplit(y, v, c);
    assert x == s[..|x|] && y == s[..|y|];
    assert u == s[|x| + 1..] && v == s[|y| + 1..];
  }

  /** Position `j` of `s` holds the last `c` of `s`. */
  predicate LastAt(s: string, j: nat, c: char) {
    j < |s| && s[j] == c && forall k :: j < k < |s| ==> s[k] != c
  }

  lemma LastAtSplit(x: string, u: string, c: char)
    requires c !in u
    ensures LastAt(x + [c] + u, |x|, c)
  {
    var s := x + [c] + u;
    forall k | |x| < k < |s| ensures s[k] != c {
      assert s[k] == u[k - |x| - 1];
    }
  }

  /** ASCII lower-casing, `ToLower` restricted to the letters that decide
      the comparisons made with its result. */
  function LowerChar(c: char): char {
    if 'A' <= c <= 'Z' then (c as int + 32) as char else c
  }

  function Lower(s: string): string {
    seq(|s|, i requires 0 <= i < |s| => LowerChar(s[i]))
  }

  predicate IsUpper(c: char) {
    'A' <= c <= 'Z'
  }

  /** Lower-casing keeps the length, maps each capital letter to its small
      letter, keeps every other character, leaves no capital behind and is
      idempotent. */
  lemma LowerFacts(s: string)
    ensures |Lower(s)| == |s|
    ensures forall i :: 0 <= i < |s| && IsUpper(s[i]) ==> Lower(s)[i] as int == s[i] as int + 32 && 'a' <= Lower(s)[i] <= 'z'
    ensures forall i :: 0 <= i < |s| && !IsUpper(s[i]) ==> Lower(s)[i] == s[i]
    ensures forall i :: 0 <= i < |s| ==> !IsUpper(Lower(s)[i])
    ensures Lower(Lower(s)) == Lower(s)
  {
    assert forall i :: 0 <= i < |s| ==> Lower(Lower(s))[i] == LowerChar(LowerChar(s[i])) == LowerChar(s[i]);
  }

  /** Lower-casing works character by character, so it distributes over
      concatenation. */
  lemma LowerSplits(a: string, b: string, c: string)
    ensures Lower(a + b + c) == Lower(a) + Lower(b) + Lower(c)
  {
    assert forall i :: 0 <= i < |a + b + c| ==> (a + b + c)[i] == if i < |a| then a[i] else if i < |a| + |b| then b[i - |a|] else c[i - |a| - |b|];
  }

  /** For a character class that lower-casing neither enters nor leaves,
      trimming and lower-casing may be done in either order. */
  lemma LowerTrimCommutes(s: string, p: char -> bool)
    requires forall c :: p(LowerChar(c)) == p(c)
    ensures Lower(TrimWith(s, p)) == TrimWith(Lower(s), p)
  {
    var a := TrimFacts(s, p);
    var r := TrimWith(s, p);
    var front, back := s[..a], s[a + |r|..];
    LowerSplits(front, r, back);
    assert Lower(s) == Lower(front) + Lower(r) + Lower(back);
    var _ := TrimFacts(Lower(s), p);
    if r == [] {
      assert forall i :: 0 <= i < |s| ==> p(Lower(s)[i]) by {
        forall i | 0 <= i < |s| ensures p(Lower(s)[i]) {
          assert p(s[i]);
          assert p(LowerChar(s[i]));
        }
      }
    } else {
      assert forall i :: 0 <= i < |front| ==> p(Lower(front)[i]) by {
        forall i | 0 <= i < |front| ensures p(Lower(front)[i]) {
          assert p(s[i]);
          assert p(LowerChar(front[i]));
        }
      }
      assert forall i :: 0 <= i < |back| ==> p(Lower(back)[i]) by {
        forall i | 0 <= i < |back| ensures p(Lower(back)[i]) {
          assert p(s[a + |r| + i]);
          assert p(LowerChar(back[i]));
        }
      }
      assert !p(Lower(r)[0]) && !p(Lower(r)[|r| - 1]) by {
        assert !p(LowerChar(r[0])) && !p(LowerChar(r[|r| - 1]));
      }
      TrimWithOf(Lower(front), Lower(r), Lower(back), p);
    }
  }
}
