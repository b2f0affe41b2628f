/**
 * `clean_text` (utils.py): `re.sub(r'\s+', ' ', text).strip()`.
 * The substitution is `CollapseRuns`; the strip is `Strings.Strip`.
 */
module Normalize {
  import opened Strings

  /** `re.sub(r'\s+', ' ', s)`: every maximal run of whitespace becomes one space. */
  function CollapseRuns(s: string): (r: string)
    ensures |r| <= |s|
    ensures r == [] <==> s == []
    ensures r != [] ==> (IsWhitespace(r[0]) <==> IsWhitespace(s[0]))
    decreases |s|
  {
    if s == [] then []
    else if IsWhitespace(s[0]) then " " + CollapseRuns(TrimStart(s[1..]))
    else [s[0]] + CollapseRuns(s[1..])
  }

  function CleanText(s: string): (r: string)
    ensures Trimmed(r)
    ensures |r| <= |s|
  {
    Strip(CollapseRuns(s))
  }

  /** No two whitespace characters are adjacent. */
  predicate NoAdjacentWhitespace(s: string)
  {
    forall i, j :: 0 <= i < |s| && 0 <= j < |s| && j == i + 1 ==> !(IsWhitespace(s[i]) && IsWhitespace(s[j]))
  }

  /** The only whitespace character that occurs is the plain space. */
  predicate OnlySpaces(s: string)
  {
    forall i :: 0 <= i < |s| ==> IsWhitespace(s[i]) ==> s[i] == ' '
  }

  /** The shape `clean_text` promises. */
  predicate Normalized(s: string)
  {
    Trimmed(s) && NoAdjacentWhitespace(s) && OnlySpaces(s)
  }

  lemma {:induction false} CollapseRunsShape(s: string)
    ensures NoAdjacentWhitespace(CollapseRuns(s)) && OnlySpaces(CollapseRuns(s))
    decreases |s|
  {
    if s != [] {
      var r := CollapseRuns(s);
      if IsWhitespace(s[0]) {
        var t := TrimStart(s[1..]);
        var rest := CollapseRuns(t);
        CollapseRunsShape(t);
        assert r == " " + rest;
        forall i, j | 0 <= i < |r| && 0 <= j < |r| && j == i + 1 ensures !(IsWhitespace(r[i]) && IsWhitespace(r[j])) {
          if i > 0 { assert r[i] == rest[i - 1] && r[j] == rest[i]; }
        }
        forall i | 0 <= i < |r| && IsWhitespace(r[i]) ensures r[i] == ' ' {
          if i > 0 { assert r[i] == rest[i - 1]; }
        }
      } else {
        var rest := CollapseRuns(s[1..]);
        CollapseRunsShape(s[1..]);
        assert r == [s[0]] + rest;
        forall i, j | 0 <= i < |r| && 0 <= j < |r| && j == i + 1 ensures !(IsWhitespace(r[i]) && IsWhitespace(r[j])) {
          if i > 0 { assert r[i] == rest[i - 1] && r[j] == rest[i]; }
        }
        forall i | 0 <= i < |r| && IsWhitespace(r[i]) ensures r[i] == ' ' {
          if i > 0 { assert r[i] == rest[i - 1]; }
        }
      }
    }
  }

  /** The output of `clean_text` has no whitespace at its ends, no two whitespace characters in a row, and no whitespace but `' '`. */
  lemma CleanTextNormalized(s: string)
    ensures Normalized(CleanText(s))
  {
    CollapseRunsShape(s);
    StripShape(CollapseRuns(s));
  }

  /** Stripping keeps the collapsed shape. */
  lemma StripShape(c: string)
    requires NoAdjacentWhitespace(c) && OnlySpaces(c)
    ensures NoAdjacentWhitespace(Strip(c)) && OnlySpaces(Strip(c))
  {
    var a := StripSlice(c);
    ShapeSlice(c, a, a + |Strip(c)|);
  }

  /** A slice of a collapsed string has the same shape. */
  lemma ShapeSlice(c: string, lo: nat, hi: nat)
    requires lo <= hi <= |c|
    requires NoAdjacentWhitespace(c) && OnlySpaces(c)
    ensures NoAdjacentWhitespace(c[lo..hi]) && OnlySpaces(c[lo..hi])
  {
    var r := c[lo..hi];
    forall i, j | 0 <= i < |r| && 0 <= j < |r| && j == i + 1 ensures !(IsWhitespace(r[i]) && IsWhitespace(r[j])) {
      assert r[i] == c[lo + i] && r[j] == c[lo + j];
    }
    forall i | 0 <= i < |r| && IsWhitespace(r[i]) ensures r[i] == ' ' {
      assert r[i] == c[lo + i];
    }
  }

  lemma TrimStartKeepsContent(s: string)
    ensures RemoveWhitespace(TrimStart(s)) == RemoveWhitespace(s)
  {
    var t := TrimStart(s);
    var pre := s[..|s| - |t|];
    assert s == pre + t;
    assert AllWhitespace(pre) by {
      forall i | 0 <= i < |pre| ensures IsWhitespace(pre[i]) { assert pre[i] == s[i]; }
    }
    RemoveWhitespaceEmptyIff(pre);
    RemoveWhitespaceAppend(pre, t);
  }

  lemma {:induction false} CollapseRunsKeepsContent(s: string)
    ensures RemoveWhitespace(CollapseRuns(s)) == RemoveWhitespace(s)
    decreases |s|
  {
    if s != [] {
      if IsWhitespace(s[0]) {
        var t := TrimStart(s[1..]);
        CollapseRunsKeepsContent(t);
        TrimStartKeepsContent(s[1..]);
        RemoveWhitespaceAppend(" ", CollapseRuns(t));
      } else {
        CollapseRunsKeepsContent(s[1..]);
        RemoveWhitespaceAppend([s[0]], CollapseRuns(s[1..]));
      }
    }
  }

  /** `clean_text` keeps every non-whitespace character of its input, in order, and adds none. */
  lemma CleanTextKeepsContent(s: string)
    ensures RemoveWhitespace(CleanText(s)) == RemoveWhitespace(s)
  {
    CollapseRunsKeepsContent(s);
    StripKeepsContent(CollapseRuns(s));
  }

  /** `clean_text` gives `""` exactly when its input is empty or whitespace only. */
  lemma CleanTextEmptyIff(s: string)
    ensures CleanText(s) == [] <==> AllWhitespace(s)
  {
    CleanTextKeepsContent(s);
    RemoveWhitespaceEmptyIff(s);
    RemoveWhitespaceEmptyIff(CleanText(s));
    CleanTextNormalized(s);
    var r := CleanText(s);
    if r != [] {
      assert !IsWhitespace(r[0]);
    }
  }

  lemma {:induction false} CollapseRunsFixes(s: string)
    requires NoAdjacentWhitespace(s) && OnlySpaces(s)
    ensures CollapseRuns(s) == s
    decreases |s|
  {
    if s != [] {
      var tail := s[1..];
      assert NoAdjacentWhitespace(tail) by {
        forall i, j | 0 <= i < |tail| && 0 <= j < |tail| && j == i + 1 ensures !(IsWhitespace(tail[i]) && IsWhitespace(tail[j])) {
          assert tail[i] == s[i + 1] && tail[j] == s[i + 2];
        }
      }
      assert OnlySpaces(tail) by {
        forall i | 0 <= i < |tail| && IsWhitespace(tail[i]) ensures tail[i] == ' ' {
          assert tail[i] == s[i + 1];
        }
      }
      CollapseRunsFixes(tail);
      if IsWhitespace(s[0]) {
        assert s[0] == ' ';
        assert tail == [] || !IsWhitespace(tail[0]);
        assert TrimStart(tail) == tail;
        assert " " + tail == s;
      } else {
        assert [s[0]] + tail == s;
      }
    }
  }

  /** The fixed points of `clean_text` are exactly the normalized strings. */
  lemma CleanTextFixedPoints(s: string)
    ensures CleanText(s) == s <==> Normalized(s)
  {
    CleanTextNormalized(s);
    if Normalized(s) {
      CollapseRunsFixes(s);
    }
  }

  /** `clean_text(clean_text(s)) == clean_text(s)`. */
  lemma CleanTextIdempotent(s: string)
    ensures CleanText(CleanText(s)) == CleanText(s)
  {
    CleanTextNormalized(s);
    CleanTextFixedPoints(CleanText(s));
  }

  /** The length of the leading run of non-whitespace characters of `t`. */
  function WordLength(t: string): (n: nat)
    ensures n <= |t|
    ensures forall i :: 0 <= i < n ==> !IsWhitespace(t[i])
    ensures n == |t| || IsWhitespace(t[n])
    ensures t != [] && !IsWhitespace(t[0]) ==> n > 0
  {
    if t == [] || IsWhitespace(t[0]) then 0 else 1 + WordLength(t[1..])
  }

  /** Python's `s.split()` with no argument: the maximal runs of non-whitespace characters, in order. */
  function Words(s: string): (ws: seq<string>)
    ensures ws == [] <==> AllWhitespace(s)
    decreases |s|
  {
    var t := TrimStart(s);
    if t == [] then []
    else
      var n := WordLength(t);
      [t[..n]] + Words(t[n..])
  }

  lemma {:induction false} CollapseRunsWord(t: string, n: nat)
    requires n <= |t|
    requires forall i :: 0 <= i < n ==> !IsWhitespace(t[i])
    ensures CollapseRuns(t) == t[..n] + CollapseRuns(t[n..])
    decreases n
  {
    if n > 0 {
      assert !IsWhitespace(t[0]);
      assert CollapseRuns(t) == [t[0]] + CollapseRuns(t[1..]);
      CollapseRunsWord(t[1..], n - 1);
      assert t[1..][..n - 1] == t[1..n];
      assert t[1..][n - 1..] == t[n..];
      ConcatAssoc([t[0]], t[1..n], CollapseRuns(t[n..]));
      assert [t[0]] + t[1..n] == t[..n];
    } else {
      assert t[..0] == [] && t[0..] == t;
    }
  }

  lemma {:induction false} TrimEndKeepsPrefix(x: string, y: string)
    requires y != [] && !IsWhitespace(y[0])
    ensures TrimEnd(x + y) == x + TrimEnd(y)
    decreases |y|
  {
    var s := x + y;
    if IsWhitespace(s[|s| - 1]) {
      assert s[|s| - 1] == y[|y| - 1];
      assert |y| > 1;
      assert s[..|s| - 1] == x + y[..|y| - 1];
      TrimEndKeepsPrefix(x, y[..|y| - 1]);
    } else {
      assert s[|s| - 1] == y[|y| - 1];
    }
  }

  /** A leading run of whitespace collapses to one space before the collapse of what follows it. */
  lemma CollapseRunsLeading(s: string)
    requires s != [] && IsWhitespace(s[0])
    ensures CollapseRuns(s) == " " + CollapseRuns(TrimStart(s))
  {
    assert TrimStart(s) == TrimStart(s[1..]);
  }

  lemma TrimStartNoop(t: string)
    requires t == [] || !IsWhitespace(t[0])
    ensures TrimStart(t) == t
  {
  }

  lemma TrimStartSpace(c: string)
    requires c == [] || !IsWhitespace(c[0])
    ensures TrimStart(" " + c) == c
  {
    assert (" " + c)[1..] == c;
    assert IsWhitespace((" " + c)[0]);
  }

  /** Leading whitespace does not reach the output of `clean_text`. */
  lemma CleanTextFromFirstWord(s: string)
    ensures CleanText(s) == TrimEnd(CollapseRuns(TrimStart(s)))
  {
    var u := TrimStart(s);
    var c := CollapseRuns(u);
    if s != [] && IsWhitespace(s[0]) {
      CollapseRunsLeading(s);
      TrimStartSpace(c);
      assert Strip(" " + c) == TrimEnd(TrimStart(" " + c));
    } else {
      TrimStartNoop(s);
      TrimStartNoop(c);
    }
  }

  /** One step of `Words` on a string that starts with a word. */
  lemma WordsStep(u: string)
    requires u != [] && !IsWhitespace(u[0])
    ensures Words(u) == [u[..WordLength(u)]] + Words(TrimStart(u[WordLength(u)..]))
  {
    assert TrimStart(u) == u;
    var v := TrimStart(u[WordLength(u)..]);
    assert TrimStart(v) == v;
  }

  lemma TakeDrop(s: string, n: nat)
    requires n <= |s|
    ensures s[..n] + s[n..] == s
  {
  }

  lemma ConcatAssoc(a: string, b: string, c: string)
    ensures a + (b + c) == a + b + c
  {
  }

  /** A word followed by whitespace collapses to the word, one space, and the collapse of what follows the whitespace. */
  lemma CollapseRunsAfterWord(w: string, rest: string)
    requires forall i :: 0 <= i < |w| ==> !IsWhitespace(w[i])
    requires rest != [] && IsWhitespace(rest[0])
    ensures CollapseRuns(w + rest) == w + " " + CollapseRuns(TrimStart(rest))
  {
    var u := w + rest;
    CollapseRunsWord(u, |w|);
    assert u[..|w|] == w && u[|w|..] == rest;
    var tail := TrimStart(rest[1..]);
    assert TrimStart(rest) == tail;
    var c := CollapseRuns(tail);
    assert CollapseRuns(rest) == " " + c;
    ConcatAssoc(w, " ", c);
  }

  /** One step of `CollapseRuns` on a string that starts with a word. */
  lemma CollapseRunsStep(u: string)
    requires u != [] && !IsWhitespace(u[0])
    ensures WordLength(u) == |u| ==> CollapseRuns(u) == u
    ensures WordLength(u) < |u| ==>
      CollapseRuns(u) == u[..WordLength(u)] + " " + CollapseRuns(TrimStart(u[WordLength(u)..]))
  {
    var n := WordLength(u);
    if n == |u| {
      CollapseRunsWord(u, n);
      assert u[n..] == [] && u[..n] == u;
    } else {
      TakeDrop(u, n);
      CollapseRunsAfterWord(u[..n], u[n..]);
    }
  }

  lemma {:induction false} CollapseRunsJoinsWords(u: string)
    requires u == [] || !IsWhitespace(u[0])
    ensures TrimEnd(CollapseRuns(u)) == Join(Words(u), " ")
    decreases |u|
  {
    if u != [] {
      var n := WordLength(u);
      var w, v := u[..n], TrimStart(u[n..]);
      WordsStep(u);
      CollapseRunsStep(u);
      if v == [] {
        TrimEndSpace(w);
        JoinCons(w, []);
      } else {
        CollapseRunsJoinsWords(v);
        var cv := CollapseRuns(v);
        TrimEndKeepsPrefix(w + " ", cv);
        JoinCons(w, Words(v));
      }
    }
  }

  /** A trailing space after a word is trimmed away. */
  lemma TrimEndSpace(w: string)
    requires w != [] && !IsWhitespace(w[|w| - 1])
    ensures TrimEnd(w + " ") == w
  {
    var s := w + " ";
    assert s[..|s| - 1] == w;
    assert IsWhitespace(s[|s| - 1]);
  }

  lemma JoinCons(w: string, ws: seq<string>)
    ensures Join([w] + ws, " ") == if ws == [] then w else w + " " + Join(ws, " ")
  {
    assert ([w] + ws)[1..] == ws;
  }

  /** `clean_text(s)` equals `" ".join(s.split())`: the words of `s` in order, one space between each. */
  lemma CleanTextIsJoinOfWords(s: string)
    ensures CleanText(s) == Join(Words(s), " ")
  {
    CleanTextFromFirstWord(s);
    var u := TrimStart(s);
    assert TrimStart(u) == u;
    assert Words(s) == Words(u);
    CollapseRunsJoinsWords(u);
  }
}
