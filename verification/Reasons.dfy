/** Reasons of history gaps: words joined by bars, kept as one string (`indexer/main.py`). */
module Reasons {

  /** The words of `s.split("|")` that are not empty, `word` being the part of the first one read so far. */
  function WordsFrom(word: string, s: string): set<string>
    decreases |s|
  {
    if s == "" then {word} - {""}
    else if s[0] == '|' then {word} - {""} + WordsFrom("", s[1..])
    else WordsFrom(word + [s[0]], s[1..])
  }

  function Words(s: string): set<string> { WordsFrom("", s) }

  lemma {:induction false} WordsOfTwo(word: string, a: string, b: string)
    ensures WordsFrom(word, a + "|" + b) == WordsFrom(word, a) + Words(b)
    decreases |a|
  {
    var s := a + "|" + b;
    if a == "" {
      assert s[1..] == b;
    } else {
      assert s[1..] == a[1..] + "|" + b;
      if a[0] == '|' { WordsOfTwo("", a[1..], b); } else { WordsOfTwo(word + [a[0]], a[1..], b); }
    }
  }

  lemma {:induction false} WordOfPlain(word: string, s: string)
    requires '|' !in s
    ensures WordsFrom(word, s) == {word + s} - {""}
    decreases |s|
  {
    if s == "" {
      assert word + s == word;
    } else {
      WordOfPlain(word + [s[0]], s[1..]);
      assert word + [s[0]] + s[1..] == word + s;
    }
  }

  lemma {:induction false} WordsArePlain(word: string, s: string, w: string)
    requires '|' !in word && w in WordsFrom(word, s)
    ensures '|' !in w && w != ""
    decreases |s|
  {
    if s != "" {
      if s[0] == '|' {
        if w in WordsFrom("", s[1..]) { WordsArePlain("", s[1..], w); }
      } else {
        WordsArePlain(word + [s[0]], s[1..], w);
      }
    }
  }

  // ---- The order of strings ----

  /** Lexicographic, by code points. */
  predicate Less(a: string, b: string)
    decreases |a|
  {
    b != "" && (a == "" || a[0] < b[0] || (a[0] == b[0] && Less(a[1..], b[1..])))
  }

  lemma {:induction false} LessTotal(a: string, b: string)
    ensures a == b || Less(a, b) || Less(b, a)
    decreases |a|
  {
    if a != "" && b != "" && a[0] == b[0] {
      LessTotal(a[1..], b[1..]);
      assert a == [a[0]] + a[1..] && b == [b[0]] + b[1..];
    }
  }

  lemma {:induction false} LessTransitive(a: string, b: string, c: string)
    requires Less(a, b) && Less(b, c)
    ensures Less(a, c)
    decreases |a|
  {
    if a != "" && a[0] == b[0] == c[0] { LessTransitive(a[1..], b[1..], c[1..]); }
  }

  /** `a` comes first exactly if it ends, or has the smaller character, where the two first differ. */
  lemma {:induction false} LessIsLexicographic(a: string, b: string)
    ensures Less(a, b) <==> exists k :: 0 <= k <= |a| && k < |b| && DiffersAt(a, b, k)
    decreases |a|
  {
    if b != "" {
      if a == "" || a[0] != b[0] {
        assert Less(a, b) <==> DiffersAt(a, b, 0);
        forall k | 0 < k <= |a| && k < |b| ensures !DiffersAt(a, b, k) { assert a[..k][0] == a[0] && b[..k][0] == b[0]; }
      } else {
        LessIsLexicographic(a[1..], b[1..]);
        forall k | 0 < k <= |a| && k < |b| ensures DiffersAt(a, b, k) <==> DiffersAt(a[1..], b[1..], k - 1) {
          assert a[..k] == [a[0]] + a[1..][..k - 1] && b[..k] == [b[0]] + b[1..][..k - 1];
        }
        if Less(a[1..], b[1..]) {
          var k :| 0 <= k <= |a[1..]| && k < |b[1..]| && DiffersAt(a[1..], b[1..], k);
          assert DiffersAt(a, b, k + 1);
        }
      }
    }
  }

  /** The two agree before position `k`, and there `a` ends or is smaller. */
  predicate DiffersAt(a: string, b: string, k: nat)
    requires k <= |a| && k < |b|
  {
    a[..k] == b[..k] && (k == |a| || a[k] < b[k])
  }

  predicate Ascending(ws: seq<string>) {
    forall i, j :: 0 <= i < j < |ws| ==> Less(ws[i], ws[j])
  }

  method Insert(ws: seq<string>, w: string) returns (out: seq<string>)
    requires Ascending(ws) && w !in ws
    ensures Ascending(out) && forall x :: x in out <==> x in ws || x == w
  {
    var n := |ws|;
    while n > 0 && !Less(ws[n - 1], w)
      invariant 0 <= n <= |ws| && forall i :: n <= i < |ws| ==> Less(w, ws[i])
    {
      LessTotal(ws[n - 1], w);
      n := n - 1;
    }
    InsertAscends(ws, w, n);
    out := ws[..n] + [w] + ws[n..];
    assert ws == ws[..n] + ws[n..];
  }

  lemma InsertAscends(ws: seq<string>, w: string, n: nat)
    requires Ascending(ws) && n <= |ws| && (n > 0 ==> Less(ws[n - 1], w))
    requires forall i :: n <= i < |ws| ==> Less(w, ws[i])
    ensures Ascending(ws[..n] + [w] + ws[n..])
  {
    forall i | 0 <= i < n ensures Less(ws[i], w) {
      if i < n - 1 { LessTransitive(ws[i], ws[n - 1], w); }
    }
  }

  /** `sorted(words)` */
  method Sorted(words: set<string>) returns (out: seq<string>)
    ensures Ascending(out) && forall x :: x in out <==> x in words
  {
    out := [];
    var todo := words;
    while todo != {}
      invariant todo <= words && Ascending(out) && forall x :: x in out <==> x in words - todo
      decreases |todo|
    {
      var w :| w in todo;
      out := Insert(out, w);
      todo := todo - {w};
    }
  }

  // ---- Joining ----

  function Join(ws: seq<string>): string {
    if ws == [] then "" else if |ws| == 1 then ws[0] else ws[0] + "|" + Join(ws[1..])
  }

  /** `s.split("|")`, `word` being the part of the first word read so far. */
  function SplitFrom(word: string, s: string): seq<string>
    decreases |s|
  {
    if s == "" then [word]
    else if s[0] == '|' then [word] + SplitFrom("", s[1..])
    else SplitFrom(word + [s[0]], s[1..])
  }

  /** The words are the parts that are not empty. */
  lemma {:induction false} WordsAreSplit(word: string, s: string, x: string)
    ensures x in WordsFrom(word, s) <==> x != "" && x in SplitFrom(word, s)
    decreases |s|
  {
    if s != "" {
      if s[0] == '|' { WordsAreSplit("", s[1..], x); } else { WordsAreSplit(word + [s[0]], s[1..], x); }
    }
  }

  lemma {:induction false} SplitFirst(word: string, s: string, rest: string)
    requires '|' !in s
    ensures SplitFrom(word, s) == [word + s] && SplitFrom(word, s + "|" + rest) == [word + s] + SplitFrom("", rest)
    decreases |s|
  {
    var all := s + "|" + rest;
    if s == "" {
      assert word + s == word && all[1..] == rest;
    } else {
      SplitFirst(word + [s[0]], s[1..], rest);
      assert all[1..] == s[1..] + "|" + rest && word + [s[0]] + s[1..] == word + s;
    }
  }

  /** Splitting undoes joining. */
  lemma {:induction false} SplitJoin(ws: seq<string>)
    requires ws != [] && forall i :: 0 <= i < |ws| ==> '|' !in ws[i]
    ensures SplitFrom("", Join(ws)) == ws
  {
    assert "" + ws[0] == ws[0];
    if |ws| == 1 {
      SplitFirst("", ws[0], "");
    } else {
      SplitFirst("", ws[0], Join(ws[1..]));
      SplitJoin(ws[1..]);
    }
  }

  /** The words of a joined string are the words of its parts. */
  lemma {:induction false} WordsOfJoin(ws: seq<string>, x: string)
    ensures x in Words(Join(ws)) <==> exists i :: 0 <= i < |ws| && x in Words(ws[i])
  {
    if |ws| > 1 {
      WordsOfTwo("", ws[0], Join(ws[1..]));
      WordsOfJoin(ws[1..], x);
      if x in Words(Join(ws[1..])) {
        var i :| 0 <= i < |ws[1..]| && x in Words(ws[1..][i]);
        assert x in Words(ws[i + 1]);
      }
      if exists i :: 0 <= i < |ws| && x in Words(ws[i]) {
        var i :| 0 <= i < |ws| && x in Words(ws[i]);
        if i > 0 { assert x in Words(ws[1..][i - 1]); }
      }
    }
  }

  /** The reason of a merged range: the first reason if both are the same, otherwise its words and the
      second reason, sorted and joined. Its words are those of both. */
  method JoinReasons(first: string, second: string) returns (r: string)
    ensures Words(r) == Words(first) + Words(second)
    ensures first == second ==> r == first
    ensures first != second ==>
              exists ws :: r == Join(ws) && Ascending(ws) && forall x :: x in ws <==> x in Words(first) + {second}
  {
    if first == second {
      return first;
    }
    var ws := Sorted(Words(first) + {second});
    r := Join(ws);
    forall x ensures x in Words(r) <==> x in Words(first) + Words(second) {
      WordsOfJoin(ws, x);
      JoinedWords(ws, first, second, x);
    }
  }

  lemma JoinedWords(ws: seq<string>, first: string, second: string, x: string)
    requires forall w :: w in ws <==> w in Words(first) + {second}
    ensures (exists i :: 0 <= i < |ws| && x in Words(ws[i])) <==> x in Words(first) + Words(second)
  {
    forall w | w in Words(first) ensures Words(w) == {w} {
      WordsArePlain("", first, w);
      WordOfPlain("", w);
      assert "" + w == w;
    }
    if x in Words(first) {
      assert x in ws;
      var i :| 0 <= i < |ws| && ws[i] == x;
    }
    if x in Words(second) {
      assert second in ws;
      var i :| 0 <= i < |ws| && ws[i] == second;
    }
    if exists i :: 0 <= i < |ws| && x in Words(ws[i]) {
      var i :| 0 <= i < |ws| && x in Words(ws[i]);
      assert ws[i] in ws;
    }
  }
}
