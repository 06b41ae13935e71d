/** Community patterns in which `*` is the only wildcard, and their translation to SQL LIKE
    (`unblock_communities_matching` and `leave_communities_matching` of `indexer/database.py`). */
module Glob {

  // ---- Meanings ----

  /** The pattern's own meaning: `*` stands for any text, every other character for itself. */
  predicate Matches(p: string, t: string)
    decreases |p|, |t|
  {
    if p == [] then t == []
    else if p[0] == '*' then Matches(p[1..], t) || (t != [] && Matches(p, t[1..]))
    else t != [] && t[0] == p[0] && Matches(p[1..], t[1..])
  }

  /** `t LIKE q ESCAPE e`: `%` is any text, `_` any character, and the character after `e` itself.
      A pattern whose last character is an unpaired escape is an error in SQL; it matches nothing here. */
  predicate Like(q: string, t: string, e: char)
    decreases |q|, |t|
  {
    if q == [] then t == []
    else if q[0] == e then |q| > 1 && t != [] && t[0] == q[1] && Like(q[2..], t[1..], e)
    else if q[0] == '%' then Like(q[1..], t, e) || (t != [] && Like(q, t[1..], e))
    else if q[0] == '_' then t != [] && Like(q[1..], t[1..], e)
    else t != [] && t[0] == q[0] && Like(q[1..], t[1..], e)
  }

  /** SQL `REPLACE` and Python `replace` of one character. */
  function Replace(s: string, c: char, r: string): string {
    if s == [] then [] else (if s[0] == c then r else [s[0]]) + Replace(s[1..], c, r)
  }

  function LowerChar(c: char): char {
    if 'A' <= c <= 'Z' then c + 32 as char else c
  }

  function Lower(s: string): string {
    if s == [] then [] else [LowerChar(s[0])] + Lower(s[1..])
  }

  /** The same letter, in either case. */
  predicate SameLetter(a: char, b: char) {
    a == b || ('A' <= a <= 'Z' && b as int == a as int + 32) || ('A' <= b <= 'Z' && a as int == b as int + 32)
  }

  predicate SameLetters(a: string, b: string) {
    |a| == |b| && forall i :: 0 <= i < |a| ==> SameLetter(a[i], b[i])
  }

  lemma {:induction false} LowerAt(s: string)
    ensures |Lower(s)| == |s| && forall i :: 0 <= i < |s| ==> Lower(s)[i] == LowerChar(s[i])
  {
    if s != "" {
      LowerAt(s[1..]);
      forall i | 0 <= i < |s| ensures Lower(s)[i] == LowerChar(s[i]) {
        if i > 0 { assert Lower(s)[i] == Lower(s[1..])[i - 1]; }
      }
    }
  }

  lemma LowerLetter(a: char, b: char)
    ensures LowerChar(a) == LowerChar(b) <==> SameLetter(a, b)
  {
  }

  /** Lower case forgets the case of letters, and nothing else. */
  lemma LowerExactly(a: string, b: string)
    ensures Lower(a) == Lower(b) <==> SameLetters(a, b)
  {
    var x, y := Lower(a), Lower(b);
    LowerAt(a);
    LowerAt(b);
    if |a| == |b| {
      forall i | 0 <= i < |a| ensures x[i] == y[i] <==> SameLetter(a[i], b[i]) { LowerLetter(a[i], b[i]); }
      if SameLetters(a, b) {
        assert forall i :: 0 <= i < |a| ==> x[i] == y[i];
      }
    }
  }

  // ---- What a pattern means ----

  /** A star matches every text, any other character itself alone. */
  lemma MatchesOne(c: char, t: string)
    ensures Matches([c], t) <==> c == '*' || t == [c]
    decreases |t|
  {
    assert [c][1..] == "";
    if t != "" { MatchesOne(c, t[1..]); }
  }

  /** A pattern matches a text exactly if its two halves match two halves of it. */
  lemma {:induction false} MatchesSplit(a: string, b: string, t: string)
    ensures Matches(a + b, t) <==> exists k :: 0 <= k <= |t| && MatchesAt(a, b, t, k)
    decreases |a|, |t|
  {
    if a == "" {
      assert a + b == b;
      MatchesEmpty(b, t);
    } else {
      assert (a + b)[0] == a[0] && (a + b)[1..] == a[1..] + b;
      MatchesSplit(a[1..], b, t);
      if t != "" {
        MatchesSplit(if a[0] == '*' then a else a[1..], b, t[1..]);
        forall k | 0 < k <= |t| ensures t[..k][1..] == t[1..][..k - 1] && t[k..] == t[1..][k - 1..] { }
      }
      SplitStep(a, b, t);
    }
  }

  predicate MatchesAt(a: string, b: string, t: string, k: nat)
    requires k <= |t|
  {
    Matches(a, t[..k]) && Matches(b, t[k..])
  }

  lemma MatchesEmpty(b: string, t: string)
    ensures Matches(b, t) <==> exists k :: 0 <= k <= |t| && MatchesAt("", b, t, k)
  {
    assert t[..0] == "" && t[0..] == t;
    if Matches(b, t) { assert MatchesAt("", b, t, 0); }
  }

  /** How a split for the first character of the pattern comes from a split for the rest. */
  lemma SplitStep(a: string, b: string, t: string)
    requires a != ""
    ensures var rest := if a[0] == '*' then a else a[1..];
            (exists k :: 0 <= k <= |t| && MatchesAt(a, b, t, k)) <==>
              || (a[0] == '*' && exists k :: 0 <= k <= |t| && MatchesAt(a[1..], b, t, k))
              || (t != "" && (a[0] == '*' || t[0] == a[0]) && exists k :: 0 <= k <= |t[1..]| && MatchesAt(rest, b, t[1..], k))
  {
    var rest := if a[0] == '*' then a else a[1..];
    forall k | 0 <= k <= |t|
      ensures MatchesAt(a, b, t, k) <==>
                || (a[0] == '*' && MatchesAt(a[1..], b, t, k))
                || (k > 0 && (a[0] == '*' || t[0] == a[0]) && MatchesAt(rest, b, t[1..], k - 1))
    {
      if k > 0 { assert t[..k][1..] == t[1..][..k - 1] && t[k..] == t[1..][k - 1..]; }
    }
    if t != "" && (a[0] == '*' || t[0] == a[0]) && exists k :: 0 <= k <= |t[1..]| && MatchesAt(rest, b, t[1..], k) {
      var k :| 0 <= k <= |t[1..]| && MatchesAt(rest, b, t[1..], k);
      assert MatchesAt(a, b, t, k + 1);
    }
  }

  // ---- The two translations ----

  function ToLikeHash(p: string): string {
    Replace(Replace(Replace(Replace(p, '#', "##"), '%', "#%"), '_', "#_"), '*', "%")
  }

  function ToLikeBackslash(p: string): string {
    Replace(Replace(Replace(p, '%', "\\%"), '_', "\\_"), '*', "%")
  }

  /** Whether a stored block pattern is cleared when its owner unblocks community `t`. */
  predicate UnblockClears(p: string, t: string) {
    Like(Lower(ToLikeHash(p)), Lower(t), '#')
  }

  /** Whether leaving pattern `p`, already lower case, drops community `t`. */
  predicate LeaveDrops(p: string, t: string) {
    if '*' in p then Like(ToLikeBackslash(p), Lower(t), '\\') else Lower(t) == Lower(p)
  }

  // ---- Replacement chains act character by character ----

  lemma {:induction false} ReplaceConcat(a: string, b: string, c: char, r: string)
    ensures Replace(a + b, c, r) == Replace(a, c, r) + Replace(b, c, r)
  {
    if a == [] {
      assert a + b == b;
    } else {
      assert (a + b)[1..] == a[1..] + b;
      ReplaceConcat(a[1..], b, c, r);
    }
  }

  /** What one pattern character becomes; `self` says whether the escape character is escaped too. */
  function Token(c: char, e: char, self: bool): string {
    if c == '%' || c == '_' || (self && c == e) then [e, c] else if c == '*' then "%" else [c]
  }

  function Translated(p: string, e: char, self: bool): string {
    if p == [] then [] else Token(p[0], e, self) + Translated(p[1..], e, self)
  }

  lemma ReplaceOne(a: char, c: char, r: string)
    ensures Replace([a], c, r) == if a == c then r else [a]
  {
    assert [a][1..] == "" && Replace("", c, r) == "";
  }

  lemma ReplaceTwo(a: char, b: char, c: char, r: string)
    ensures Replace([a, b], c, r) == (if a == c then r else [a]) + (if b == c then r else [b])
  {
    assert [a, b][1..] == [b];
    ReplaceOne(b, c, r);
  }

  lemma {:induction false} HashIsTranslated(p: string)
    ensures ToLikeHash(p) == Translated(p, '#', true)
  {
    if p != [] {
      HashIsTranslated(p[1..]);
      var c, rest := p[0], p[1..];
      var r1 := if c == '#' then "##" else [c];
      var s1 := Replace(rest, '#', "##");
      assert Replace(p, '#', "##") == r1 + s1;
      var s2 := Replace(s1, '%', "#%");
      ReplaceConcat(r1, s1, '%', "#%");
      var r2 := Replace(r1, '%', "#%");
      ReplaceConcat(r2, s2, '_', "#_");
      var r3 := Replace(r2, '_', "#_");
      ReplaceConcat(r3, Replace(s2, '_', "#_"), '*', "%");
      HashToken(c);
    }
  }

  lemma HashToken(c: char)
    ensures var r1 := if c == '#' then "##" else [c];
            Replace(Replace(Replace(r1, '%', "#%"), '_', "#_"), '*', "%") == Token(c, '#', true)
  {
    ReplaceTwo('#', '#', '%', "#%");
    ReplaceTwo('#', '#', '_', "#_");
    ReplaceTwo('#', '#', '*', "%");
    ReplaceOne(c, '%', "#%");
    ReplaceTwo('#', '%', '_', "#_");
    ReplaceTwo('#', '%', '*', "%");
    ReplaceOne(c, '_', "#_");
    ReplaceTwo('#', '_', '*', "%");
    ReplaceOne(c, '*', "%");
  }

  lemma {:induction false} BackslashIsTranslated(p: string)
    ensures ToLikeBackslash(p) == Translated(p, '\\', false)
  {
    if p != [] {
      BackslashIsTranslated(p[1..]);
      var c, rest := p[0], p[1..];
      var r1 := if c == '%' then "\\%" else [c];
      var s1 := Replace(rest, '%', "\\%");
      assert Replace(p, '%', "\\%") == r1 + s1;
      ReplaceConcat(r1, s1, '_', "\\_");
      var r2 := Replace(r1, '_', "\\_");
      ReplaceConcat(r2, Replace(s1, '_', "\\_"), '*', "%");
      ReplaceTwo('\\', '%', '_', "\\_");
      ReplaceTwo('\\', '%', '*', "%");
      ReplaceOne(c, '_', "\\_");
      ReplaceTwo('\\', '_', '*', "%");
      ReplaceOne(c, '*', "%");
    }
  }

  lemma {:induction false} LowerTranslated(p: string, e: char, self: bool)
    requires e == '#' || e == '\\'
    ensures Lower(Translated(p, e, self)) == Translated(Lower(p), e, self)
  {
    if p != [] {
      LowerTranslated(p[1..], e, self);
      LowerConcat(Token(p[0], e, self), Translated(p[1..], e, self));
      LowerToken(p[0], e, self);
      assert Lower(p)[1..] == Lower(p[1..]);
    }
  }

  lemma LowerToken(c: char, e: char, self: bool)
    requires e == '#' || e == '\\'
    ensures Lower(Token(c, e, self)) == Token(LowerChar(c), e, self)
  {
    assert forall a, b :: Lower([a, b]) == [LowerChar(a), LowerChar(b)] by {
      forall a, b ensures Lower([a, b]) == [LowerChar(a), LowerChar(b)] {
        assert [a, b][1..] == [b] && [b][1..] == "" && Lower("") == "";
      }
    }
    assert [c][1..] == "" && Lower("") == "";
  }

  lemma {:induction false} LowerConcat(a: string, b: string)
    ensures Lower(a + b) == Lower(a) + Lower(b)
  {
    if a == [] {
      assert a + b == b;
    } else {
      assert (a + b)[1..] == a[1..] + b;
      LowerConcat(a[1..], b);
    }
  }

  // ---- Escaping keeps the meaning ----

  lemma {:induction false} TranslationKeepsMeaning(p: string, t: string, e: char, self: bool)
    requires e != '%' && e != '_' && e != '*' && (self || e !in p)
    ensures Like(Translated(p, e, self), t, e) <==> Matches(p, t)
    decreases |p|, |t|
  {
    if p != [] {
      var q := Translated(p, e, self);
      var k := Token(p[0], e, self);
      assert q[|k|..] == Translated(p[1..], e, self);
      if p[0] == '*' {
        TranslationKeepsMeaning(p[1..], t, e, self);
        if t != [] { TranslationKeepsMeaning(p, t[1..], e, self); }
      } else if t != [] {
        TranslationKeepsMeaning(p[1..], t[1..], e, self);
      }
    }
  }

  /** Unblocking a community clears a stored pattern exactly when the pattern matches it. */
  /** The case of letters, in pattern or community, makes no difference. */
  lemma UnblockIgnoresCase(p: string, q: string, t: string, u: string)
    requires SameLetters(p, q) && SameLetters(t, u)
    ensures UnblockClears(p, t) <==> UnblockClears(q, u)
  {
    LowerExactly(p, q);
    LowerExactly(t, u);
    UnblockIsMatching(p, t);
    UnblockIsMatching(q, u);
  }

  lemma UnblockIsMatching(p: string, t: string)
    ensures UnblockClears(p, t) <==> Matches(Lower(p), Lower(t))
  {
    HashIsTranslated(p);
    LowerTranslated(p, '#', true);
    TranslationKeepsMeaning(Lower(p), Lower(t), '#', true);
  }

  // ---- An unescaped backslash changes the meaning ----

  /** Every escape character is followed by the character it escapes. */
  predicate WellEscaped(q: string, e: char) {
    if q == [] then true
    else if q[0] == e then |q| > 1 && WellEscaped(q[2..], e)
    else WellEscaped(q[1..], e)
  }

  lemma {:induction false} IllEscapedMatchesNothing(q: string, t: string, e: char)
    requires !WellEscaped(q, e)
    ensures !Like(q, t, e)
    decreases |q|, |t|
  {
    if q[0] == e {
      if |q| > 1 && t != [] { IllEscapedMatchesNothing(q[2..], t[1..], e); }
    } else {
      if q[0] == '%' { IllEscapedMatchesNothing(q[1..], t, e); }
      if t != [] {
        if q[0] == '%' { IllEscapedMatchesNothing(q, t[1..], e); } else { IllEscapedMatchesNothing(q[1..], t[1..], e); }
      }
    }
  }

  /** A shortest text matching a LIKE pattern, with `x` in place of each `_`. */
  function Shortest(q: string, e: char): string {
    if q == [] then []
    else if q[0] == e then if |q| > 1 then [q[1]] + Shortest(q[2..], e) else []
    else if q[0] == '%' then Shortest(q[1..], e)
    else [if q[0] == '_' then 'x' else q[0]] + Shortest(q[1..], e)
  }

  lemma {:induction false} ShortestMatches(q: string, e: char)
    requires WellEscaped(q, e)
    ensures Like(q, Shortest(q, e), e)
  {
    if q != [] {
      if q[0] == e { ShortestMatches(q[2..], e); } else { ShortestMatches(q[1..], e); }
    }
  }

  /** The shortest text matching a glob: the pattern without its stars. */
  function Literals(p: string): string {
    if p == [] then [] else (if p[0] == '*' then "" else [p[0]]) + Literals(p[1..])
  }

  lemma {:induction false} LiteralsMatch(p: string)
    ensures Matches(p, Literals(p))
  {
    if p != [] {
      LiteralsMatch(p[1..]);
      if p[0] != '*' { assert Literals(p)[1..] == Literals(p[1..]); } else { assert Literals(p) == Literals(p[1..]); }
    }
  }

  /** No shorter text matches, and no other text of the same length. */
  lemma {:induction false} LiteralsLeast(p: string, t: string)
    requires Matches(p, t)
    ensures |t| >= |Literals(p)| && (|t| == |Literals(p)| ==> t == Literals(p))
    decreases |p|, |t|
  {
    if p != [] {
      if p[0] != '*' {
        LiteralsLeast(p[1..], t[1..]);
        assert t == [t[0]] + t[1..];
      } else if Matches(p[1..], t) {
        LiteralsLeast(p[1..], t);
      } else {
        LiteralsLeast(p, t[1..]);
      }
    }
  }

  lemma {:induction false} BackslashNeverLonger(p: string)
    ensures |Shortest(Translated(p, '\\', false), '\\')| <= |Literals(p)|
  {
    if p != [] {
      var rest := p[1..];
      var q := Translated(p, '\\', false);
      var k := Token(p[0], '\\', false);
      assert q[|k|..] == Translated(rest, '\\', false);
      if p[0] != '\\' {
        BackslashNeverLonger(rest);
      } else if rest != [] {
        BackslashPair(p);
        BackslashNeverLonger(rest[1..]);
      }
    }
  }

  /** What LIKE reads at a backslash: the next pattern character, translated, is escaped. */
  lemma EscapedToken(d: char, rest: string, q: string)
    requires q == "\\" + Token(d, '\\', false) + rest
    ensures Shortest(q, '\\') == ShortestPair(d) + Shortest(rest, '\\')
    ensures WellEscaped(q, '\\') ==> WellEscaped(rest, '\\')
  {
    if d == '%' || d == '_' {
      assert q == ['\\', '\\', d] + rest;
      EscapedTwice(d, rest);
    } else {
      assert q == ['\\', if d == '*' then '%' else d] + rest;
      EscapedOnce(if d == '*' then '%' else d, rest);
    }
  }

  lemma EscapedOnce(c: char, rest: string)
    ensures Shortest(['\\', c] + rest, '\\') == [c] + Shortest(rest, '\\')
    ensures WellEscaped(['\\', c] + rest, '\\') <==> WellEscaped(rest, '\\')
  {
    assert (['\\', c] + rest)[2..] == rest;
  }

  lemma EscapedTwice(d: char, rest: string)
    requires d == '%' || d == '_'
    ensures Shortest(['\\', '\\', d] + rest, '\\') == ShortestPair(d) + Shortest(rest, '\\')
    ensures WellEscaped(['\\', '\\', d] + rest, '\\') <==> WellEscaped(rest, '\\')
  {
    var after := [d] + rest;
    assert ['\\', '\\', d] + rest == ['\\', '\\'] + after;
    EscapedOnce('\\', after);
    assert after[1..] == rest;
    if d == '_' { assert ['\\'] + ("x" + Shortest(rest, '\\')) == "\\x" + Shortest(rest, '\\'); }
  }

  function ShortestPair(d: char): string {
    if d == '*' then "%" else if d == '%' then "\\" else if d == '_' then "\\x" else [d]
  }

  lemma TranslatedCons(c: char, rest: string, e: char, self: bool)
    ensures Translated([c] + rest, e, self) == Token(c, e, self) + Translated(rest, e, self)
  {
    assert ([c] + rest)[1..] == rest;
  }

  lemma LiteralsCons(c: char, rest: string)
    ensures Literals([c] + rest) == (if c == '*' then "" else [c]) + Literals(rest)
  {
    assert ([c] + rest)[1..] == rest;
  }

  lemma TranslatedPair(d: char, tail: string) returns (q: string)
    ensures q == Translated(['\\'] + ([d] + tail), '\\', false)
    ensures q == "\\" + Token(d, '\\', false) + Translated(tail, '\\', false)
  {
    TranslatedCons('\\', [d] + tail, '\\', false);
    TranslatedCons(d, tail, '\\', false);
    var k, r := Token(d, '\\', false), Translated(tail, '\\', false);
    q := "\\" + (k + r);
    assert q == "\\" + k + r;
  }

  lemma LiteralsPair(d: char, tail: string)
    ensures Literals(['\\'] + ([d] + tail)) == (if d == '*' then "\\" else ['\\', d]) + Literals(tail)
  {
    LiteralsCons('\\', [d] + tail);
    LiteralsCons(d, tail);
  }

  lemma BackslashPair(p: string)
    requires |p| >= 2 && p[0] == '\\'
    ensures var q, rest := Translated(p, '\\', false), Translated(p[2..], '\\', false);
            && Shortest(q, '\\') == ShortestPair(p[1]) + Shortest(rest, '\\')
            && (WellEscaped(q, '\\') ==> WellEscaped(rest, '\\'))
    ensures Literals(p) == (if p[1] == '*' then "\\" else ['\\', p[1]]) + Literals(p[2..])
  {
    var d, tail := p[1], p[2..];
    assert p == ['\\'] + ([d] + tail);
    LiteralsPair(d, tail);
    var q := TranslatedPair(d, tail);
    EscapedToken(d, Translated(tail, '\\', false), q);
  }

  lemma LoneBackslash()
    ensures !WellEscaped(Translated("\\", '\\', false), '\\')
  {
    TranslatedCons('\\', "", '\\', false);
    assert ['\\'] + "" == "\\";
  }

  lemma {:induction false} BackslashDiffers(p: string)
    requires '\\' in p && WellEscaped(Translated(p, '\\', false), '\\')
    ensures Shortest(Translated(p, '\\', false), '\\') != Literals(p)
  {
    var q := Translated(p, '\\', false);
    if p[0] == '\\' {
      if |p| == 1 {
        assert p == "\\";
        LoneBackslash();
        assert false;
      }
      BackslashPair(p);
      BackslashNeverLonger(p[2..]);
      var a, b := Shortest(q, '\\'), Literals(p);
      if p[1] == '*' { assert a[0] != b[0]; } else if p[1] == '_' { assert a[1] != b[1]; } else { assert |a| < |b|; }
    } else {
      var k := Token(p[0], '\\', false);
      assert q[|k|..] == Translated(p[1..], '\\', false);
      BackslashDiffers(p[1..]);
      if p[0] != '*' {
        assert Shortest(q, '\\')[1..] == Shortest(q[|k|..], '\\') && Literals(p)[1..] == Literals(p[1..]);
      } else {
        assert Literals(p) == Literals(p[1..]);
      }
    }
  }

  // ---- Leaving communities by pattern ----

  predicate AllLower(s: string) {
    forall i :: 0 <= i < |s| ==> LowerChar(s[i]) == s[i]
  }

  lemma {:induction false} LowerOfLower(s: string)
    ensures AllLower(s) <==> Lower(s) == s
  {
    if s != [] {
      LowerOfLower(s[1..]);
      assert s == [s[0]] + s[1..];
      if Lower(s) == s { assert Lower(s)[1..] == s[1..]; }
    }
  }

  lemma {:induction false} ShortestLower(q: string, e: char)
    requires AllLower(q)
    ensures AllLower(Shortest(q, e))
  {
    if q != [] {
      if q[0] == e { if |q| > 1 { ShortestLower(q[2..], e); } } else { ShortestLower(q[1..], e); }
    }
  }

  lemma {:induction false} LiteralsLower(p: string)
    requires AllLower(p)
    ensures AllLower(Literals(p))
  {
    if p != [] { LiteralsLower(p[1..]); }
  }

  /** Without a star the translation is not used, and plain equality is the meaning. */
  lemma {:induction false} NoStarIsEquality(p: string, t: string)
    requires '*' !in p
    ensures Matches(p, t) <==> t == p
    decreases |p|
  {
    if p != [] && t != [] {
      NoStarIsEquality(p[1..], t[1..]);
      assert p == [p[0]] + p[1..] && t == [t[0]] + t[1..];
    }
  }

  /** Leaving by a lower-case pattern drops exactly the communities the pattern matches, if and
      only if the pattern does not contain both a star and a backslash. */
  lemma LeaveIsMatching(p: string)
    requires Lower(p) == p
    ensures (forall t :: LeaveDrops(p, t) <==> Matches(p, Lower(t))) <==> !('*' in p && '\\' in p)
  {
    if '*' in p && '\\' in p {
      var t := LeaveCounterexample(p);
    } else {
      forall t ensures LeaveDrops(p, t) <==> Matches(p, Lower(t)) {
        if '*' in p {
          BackslashIsTranslated(p);
          TranslationKeepsMeaning(p, Lower(t), '\\', false);
        } else {
          NoStarIsEquality(p, Lower(t));
        }
      }
    }
  }

  lemma LeaveCounterexample(p: string) returns (t: string)
    requires Lower(p) == p && '*' in p && '\\' in p
    ensures LeaveDrops(p, t) != Matches(p, Lower(t))
  {
    var q := ToLikeBackslash(p);
    BackslashIsTranslated(p);
    LowerOfLower(p);
    if WellEscaped(q, '\\') {
      t := Shortest(q, '\\');
      LowerTranslated(p, '\\', false);
      LowerOfLower(q);
      ShortestLower(q, '\\');
      LowerOfLower(t);
      ShortestMatches(q, '\\');
      BackslashNeverLonger(p);
      BackslashDiffers(p);
      if Matches(p, t) { LiteralsLeast(p, t); }
    } else {
      t := Literals(p);
      LiteralsLower(p);
      LowerOfLower(t);
      LiteralsMatch(p);
      IllEscapedMatchesNothing(q, t, '\\');
    }
  }
}
