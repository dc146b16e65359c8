/**
  The Python `str` operations the question-answering code relies on, as pure
  functions over `seq<char>`: whitespace classification, `strip`, argument-less
  `split`, `split(sep)`, `join`, `in` / `find` / `startswith`, `replace`,
  `lower` and `re.sub(r'\s+', ' ', ...)`, with the facts about them that the
  rest of the model uses.
*/
module Text {
  import opened Wrappers

  // ---------------------------------------------------------------------------
  // Whitespace

  /** Python's `str.isspace()` for one character; `strip()`, `split()` and the
      regex class `\s` all use this set. */
  predicate IsSpace(c: char)
  {
    || ('\t' <= c <= '\r')
    || ('\U{1c}' <= c <= '\U{1f}')
    || c == ' '
    || c == '\U{85}'
    || c == '\U{a0}'
    || c == '\U{1680}'
    || ('\U{2000}' <= c <= '\U{200a}')
    || c == '\U{2028}'
    || c == '\U{2029}'
    || c == '\U{202f}'
    || c == '\U{205f}'
    || c == '\U{3000}'
  }

  predicate NoSpace(s: string)
  {
    forall i :: 0 <= i < |s| ==> !IsSpace(s[i])
  }

  predicate AllSpace(s: string)
  {
    forall i :: 0 <= i < |s| ==> IsSpace(s[i])
  }

  /** A token of argument-less `split()`: non-empty, no whitespace. */
  predicate IsWord(w: string)
  {
    |w| > 0 && NoSpace(w)
  }

  /** No leading and no trailing whitespace. */
  predicate Trimmed(s: string)
  {
    |s| == 0 || (!IsSpace(s[0]) && !IsSpace(s[|s| - 1]))
  }

  /** No two adjacent whitespace characters. */
  predicate NoDoubleSpace(s: string)
  {
    forall i :: 0 <= i < |s| - 1 ==> !(IsSpace(s[i]) && IsSpace(s[i + 1]))
  }

  // ---------------------------------------------------------------------------
  // Substrings: `in`, `find`, `startswith`

  /** `s.startswith(p)`. */
  predicate IsPrefix(p: string, s: string)
  {
    |p| <= |s| && s[..|p|] == p
  }

  /** `m` occurs in `s` starting at index `j`. */
  predicate OccursAt(s: string, m: string, j: int)
  {
    0 <= j && j + |m| <= |s| && s[j..j + |m|] == m
  }

  lemma ShiftOccurrence(s: string, m: string)
    requires |s| > 0
    ensures OccursAt(s, m, 0) <==> IsPrefix(m, s)
    ensures forall j :: 1 <= j ==> (OccursAt(s, m, j) <==> OccursAt(s[1..], m, j - 1))
  {
    forall j | 1 <= j
      ensures OccursAt(s, m, j) <==> OccursAt(s[1..], m, j - 1)
    {
      if j + |m| <= |s| {
        SliceOfTail(s, j, j + |m|);
      }
    }
  }

  /** A slice of `s[1..]` is the slice of `s` one position later. */
  lemma SliceOfTail(s: string, a: int, b: int)
    requires 1 <= a <= b <= |s|
    ensures s[1..][a - 1..b - 1] == s[a..b]
  {
    forall t | 0 <= t < b - a
      ensures s[1..][a - 1..b - 1][t] == s[a..b][t]
    {
    }
  }

  /** `s.find(m)`: the first index where `m` occurs, `None` for Python's -1. */
  function Find(s: string, m: string): (r: Option<nat>)
    ensures r.Some? ==> OccursAt(s, m, r.value)
    ensures r.Some? ==> forall j :: 0 <= j < r.value ==> !OccursAt(s, m, j)
    ensures r.None? ==> forall j :: !OccursAt(s, m, j)
    decreases |s|
  {
    if IsPrefix(m, s) then
      assert s[0..|m|] == s[..|m|];
      Some(0)
    else if |s| == 0 then None
    else
      ShiftOccurrence(s, m);
      var k := Find(s[1..], m);
      if k.Some? then Some(k.value + 1) else None
  }

  /** Python's `m in s`. */
  predicate Contains(s: string, m: string)
  {
    Find(s, m).Some?
  }

  lemma OccursContains(s: string, m: string, j: int)
    requires OccursAt(s, m, j)
    ensures Contains(s, m)
    ensures Find(s, m).value <= j
  {
  }

  /** An occurrence inside a piece of a string is an occurrence in the string. */
  lemma OccursInSlice(s: string, a: int, b: int, m: string, j: int)
    requires 0 <= a <= b <= |s|
    requires OccursAt(s[a..b], m, j)
    ensures OccursAt(s, m, a + j)
  {
    forall i | 0 <= i < |m|
      ensures s[a + j + i] == m[i]
    {
      assert m[i] == s[a..b][j..j + |m|][i];
    }
    assert s[a + j..a + j + |m|] == m;
  }

  /** An occurrence past index `a` is an occurrence in the suffix from `a`. */
  lemma OccursInSliceBack(s: string, a: int, m: string, j: int)
    requires 0 <= a <= j && OccursAt(s, m, j)
    ensures OccursAt(s[a..], m, j - a)
  {
    forall i | 0 <= i < |m|
      ensures s[a..][j - a + i] == m[i]
    {
      assert m[i] == s[j..j + |m|][i];
    }
    assert s[a..][j - a..j - a + |m|] == m;
  }

  /** Containment is transitive: `b in a` and `a in s` give `b in s`. */
  lemma ContainsTransitive(s: string, a: string, b: string)
    requires Contains(s, a) && Contains(a, b)
    ensures Contains(s, b)
  {
    var i := Find(s, a).value;
    var j := Find(a, b).value;
    assert s[i..i + |a|] == a;
    OccursInSlice(s, i, i + |a|, b, j);
    OccursContains(s, b, i + j);
  }

  /** A string that starts with `p` contains `p`. */
  lemma PrefixContains(p: string, s: string)
    requires IsPrefix(p, s)
    ensures Contains(s, p)
  {
    assert s[0..|p|] == s[..|p|];
    OccursContains(s, p, 0);
  }

  lemma OccurrenceNoSpace(s: string, m: string, j: int)
    requires OccursAt(s, m, j) && NoSpace(m)
    ensures forall p :: j <= p < j + |m| ==> !IsSpace(s[p])
  {
    forall p | j <= p < j + |m|
      ensures !IsSpace(s[p])
    {
      assert s[p] == s[j..j + |m|][p - j];
    }
  }

  /** An occurrence of a whitespace-free `m` in `a + [c] + b`, where `c` is
      whitespace, lies wholly in `a` or wholly in `b`. */
  lemma ContainsAcrossSpace(a: string, c: char, b: string, m: string)
    requires IsSpace(c) && NoSpace(m)
    requires Contains(a + [c] + b, m)
    ensures Contains(a, m) || Contains(b, m)
  {
    var s := a + [c] + b;
    var j := Find(s, m).value;
    OccurrenceNoSpace(s, m, j);
    assert s[|a|] == c;
    if j + |m| <= |a| {
      assert s[j..j + |m|] == a[j..j + |m|];
      OccursContains(a, m, j);
    } else {
      assert j > |a|;
      assert s[|a| + 1..] == b;
      OccursInSliceBack(s, |a| + 1, m, j);
      OccursContains(b, m, j - |a| - 1);
    }
  }

  /** `c` is not in `s` when the one-character string `[c]` does not occur. */
  lemma CharAbsent(s: string, c: char)
    requires !Contains(s, [c])
    ensures c !in s
  {
    forall j | 0 <= j < |s|
      ensures s[j] != c
    {
      assert s[j..j + 1] == [s[j]];
      assert !OccursAt(s, [c], j);
    }
  }

  /** A character that cannot start `m`, put in front of `s`, adds no occurrence. */
  lemma ContainsAfterChar(c: char, s: string, m: string)
    requires |m| > 0 && m[0] != c
    requires Contains([c] + s, m)
    ensures Contains(s, m)
  {
    var t := [c] + s;
    var j := Find(t, m).value;
    assert t[j] == m[0];
    assert j >= 1;
    assert t[j..j + |m|] == s[j - 1..j - 1 + |m|];
    OccursContains(s, m, j - 1);
  }

  // ---------------------------------------------------------------------------
  // strip

  /** `s.lstrip()`. */
  function StripLeft(s: string): (r: string)
    ensures |r| <= |s| && r == s[|s| - |r|..]
    ensures |r| > 0 ==> !IsSpace(r[0])
    ensures AllSpace(s[..|s| - |r|])
    decreases |s|
  {
    if |s| > 0 && IsSpace(s[0]) then
      var r := StripLeft(s[1..]);
      assert s[..|s| - |r|] == [s[0]] + s[1..][..|s| - 1 - |r|];
      r
    else s
  }

  /** `s.rstrip()`. */
  function StripRight(s: string): (r: string)
    ensures |r| <= |s| && r == s[..|r|]
    ensures |r| > 0 ==> !IsSpace(r[|r| - 1])
    ensures AllSpace(s[|r|..])
    decreases |s|
  {
    if |s| > 0 && IsSpace(s[|s| - 1]) then
      var r := StripRight(s[..|s| - 1]);
      assert s[|r|..] == s[..|s| - 1][|r|..] + [s[|s| - 1]];
      r
    else s
  }

  /** `s.strip()`: the longest piece of `s` without leading or trailing whitespace. */
  function Strip(s: string): (r: string)
    ensures Trimmed(r)
    ensures |r| <= |s|
  {
    var l := StripLeft(s);
    var r := StripRight(l);
    assert |r| > 0 ==> r[0] == l[0];
    r
  }

  /** Stripping adds no character. */
  lemma StripKeepsAbsent(s: string, c: char)
    requires c !in s
    ensures c !in Strip(s)
  {
    var l := StripLeft(s);
    SliceKeepsAbsent(s, |s| - |l|, |s|, c);
    assert l == s[|s| - |l|..|s|];
    var r := StripRight(l);
    SliceKeepsAbsent(l, 0, |r|, c);
    assert r == l[0..|r|];
  }

  /** A slice holds no character its sequence lacks. */
  lemma SliceKeepsAbsent(s: string, a: int, b: int, c: char)
    requires 0 <= a <= b <= |s| && c !in s
    ensures c !in s[a..b]
  {
    forall i | 0 <= i < b - a
      ensures s[a..b][i] != c
    {
      assert s[a..b][i] == s[a + i];
    }
  }

  lemma StripTrimmed(s: string)
    requires Trimmed(s)
    ensures Strip(s) == s
  {
  }

  /** Stripping `[c] + s` for whitespace `c` equals stripping `s`. */
  lemma StripAfterSpace(c: char, s: string)
    requires IsSpace(c)
    ensures Strip([c] + s) == Strip(s)
  {
    assert ([c] + s)[1..] == s;
  }

  // ---------------------------------------------------------------------------
  // join

  /** `sep.join(xs)`. */
  function Join(sep: string, xs: seq<string>): string
    decreases |xs|
  {
    if |xs| == 0 then ""
    else if |xs| == 1 then xs[0]
    else xs[0] + sep + Join(sep, xs[1..])
  }

  lemma JoinCons(sep: string, x: string, xs: seq<string>)
    requires |xs| > 0
    ensures Join(sep, [x] + xs) == x + sep + Join(sep, xs)
  {
    assert ([x] + xs)[1..] == xs;
  }

  lemma {:induction false} JoinAppend(sep: string, xs: seq<string>, ys: seq<string>)
    requires |xs| > 0 && |ys| > 0
    ensures Join(sep, xs + ys) == Join(sep, xs) + sep + Join(sep, ys)
    decreases |xs|
  {
    if |xs| == 1 {
      JoinCons(sep, xs[0], ys);
      assert xs + ys == [xs[0]] + ys;
    } else {
      assert xs + ys == [xs[0]] + (xs[1..] + ys);
      JoinCons(sep, xs[0], xs[1..] + ys);
      JoinAppend(sep, xs[1..], ys);
      JoinCons(sep, xs[0], xs[1..]);
      assert xs == [xs[0]] + xs[1..];
    }
  }

  /** `sep.join` of each group, in order. */
  function JoinEach(sep: string, gs: seq<seq<string>>): (r: seq<string>)
    ensures |r| == |gs|
    ensures forall i :: 0 <= i < |gs| ==> r[i] == Join(sep, gs[i])
  {
    seq(|gs|, i requires 0 <= i < |gs| => Join(sep, gs[i]))
  }

  /** Joining one more group appends its join. */
  lemma JoinEachAppend(sep: string, gs: seq<seq<string>>, g: seq<string>)
    ensures JoinEach(sep, gs + [g]) == JoinEach(sep, gs) + [Join(sep, g)]
  {
    var l := JoinEach(sep, gs + [g]);
    var r := JoinEach(sep, gs) + [Join(sep, g)];
    assert forall i :: 0 <= i < |gs| ==> (gs + [g])[i] == gs[i];
    assert forall i :: 0 <= i < |l| ==> l[i] == r[i];
  }

  /** Joining the joined groups equals joining all their elements: joining
      group-wise loses, duplicates and reorders nothing. */
  lemma {:induction false} JoinFlatten(sep: string, gs: seq<seq<string>>)
    requires forall i :: 0 <= i < |gs| ==> |gs[i]| > 0
    ensures Join(sep, JoinEach(sep, gs)) == Join(sep, Flatten(gs))
    decreases |gs|
  {
    if |gs| == 0 {
    } else if |gs| == 1 {
      FlattenSingle(gs[0]);
      assert gs == [gs[0]];
    } else {
      var rest := gs[1..];
      JoinFlatten(sep, rest);
      assert JoinEach(sep, gs) == [Join(sep, gs[0])] + JoinEach(sep, rest);
      JoinCons(sep, Join(sep, gs[0]), JoinEach(sep, rest));
      assert Flatten(gs) == gs[0] + Flatten(rest);
      assert |Flatten(rest)| > 0 by {
        assert Flatten(rest) == rest[0] + Flatten(rest[1..]);
      }
      JoinAppend(sep, gs[0], Flatten(rest));
    }
  }

  // ---------------------------------------------------------------------------
  // split() without arguments

  /** End of the run of non-whitespace characters starting at `i`. */
  function WordEnd(s: string, i: nat): (k: nat)
    requires i <= |s|
    ensures i <= k <= |s|
    ensures forall j :: i <= j < k ==> !IsSpace(s[j])
    ensures k == |s| || IsSpace(s[k])
    decreases |s| - i
  {
    if i == |s| || IsSpace(s[i]) then i else WordEnd(s, i + 1)
  }

  /** `s.split()`: the maximal runs of non-whitespace characters, in order. */
  function Words(s: string): (ws: seq<string>)
    ensures forall i :: 0 <= i < |ws| ==> IsWord(ws[i])
    decreases |s|
  {
    if |s| == 0 then []
    else if IsSpace(s[0]) then Words(s[1..])
    else
      var k := WordEnd(s, 1);
      [s[..k]] + Words(s[k..])
  }

  lemma {:induction false} WordEndBeforeSpace(a: string, c: char, b: string, i: nat)
    requires IsSpace(c) && i <= |a|
    ensures WordEnd(a + [c] + b, i) == WordEnd(a, i)
    decreases |a| - i
  {
    var s := a + [c] + b;
    if i == |a| {
      assert s[i] == c;
    } else {
      assert s[i] == a[i];
      if !IsSpace(a[i]) {
        WordEndBeforeSpace(a, c, b, i + 1);
      }
    }
  }

  /** A whitespace character separates words: `(a + c + b).split()` is
      `a.split() + b.split()`. */
  lemma {:induction false} WordsAroundSpace(a: string, c: char, b: string)
    requires IsSpace(c)
    ensures Words(a + [c] + b) == Words(a) + Words(b)
    decreases |a|
  {
    var s := a + [c] + b;
    if |a| == 0 {
      assert s[1..] == b;
    } else if IsSpace(a[0]) {
      assert s[1..] == a[1..] + [c] + b;
      WordsAroundSpace(a[1..], c, b);
    } else {
      WordEndBeforeSpace(a, c, b, 1);
      var k := WordEnd(a, 1);
      assert s[..k] == a[..k];
      assert s[k..] == a[k..] + [c] + b;
      WordsAroundSpace(a[k..], c, b);
    }
  }

  lemma {:induction false} WordsAllSpace(s: string)
    requires AllSpace(s)
    ensures Words(s) == []
    decreases |s|
  {
    if |s| > 0 {
      WordsAllSpace(s[1..]);
    }
  }

  lemma WordsOfWord(w: string)
    requires IsWord(w)
    ensures Words(w) == [w]
  {
    var k := WordEnd(w, 1);
    assert k == |w|;
    assert w[..k] == w;
  }

  /** Splitting words joined by single spaces gives the words back. */
  lemma {:induction false} WordsOfJoin(ws: seq<string>)
    requires forall i :: 0 <= i < |ws| ==> IsWord(ws[i])
    ensures Words(Join(" ", ws)) == ws
    decreases |ws|
  {
    if |ws| == 1 {
      WordsOfWord(ws[0]);
    } else if |ws| > 1 {
      WordsOfJoin(ws[1..]);
      WordsOfWord(ws[0]);
      assert ws[0] + " " + Join(" ", ws[1..]) == ws[0] + [' '] + Join(" ", ws[1..]);
      WordsAroundSpace(ws[0], ' ', Join(" ", ws[1..]));
      assert ws == [ws[0]] + ws[1..];
    }
  }

  /** The words of each string, concatenated in order. */
  function WordsOfEach(xs: seq<string>): seq<string>
    decreases |xs|
  {
    if |xs| == 0 then [] else Words(xs[0]) + WordsOfEach(xs[1..])
  }

  lemma {:induction false} WordsOfEachAppend(xs: seq<string>, ys: seq<string>)
    ensures WordsOfEach(xs + ys) == WordsOfEach(xs) + WordsOfEach(ys)
    decreases |xs|
  {
    if |xs| == 0 {
      assert xs + ys == ys;
    } else {
      assert (xs + ys)[1..] == xs[1..] + ys;
      WordsOfEachAppend(xs[1..], ys);
    }
  }

  /** Joining with single spaces neither merges nor splits any words. */
  lemma {:induction false} WordsOfJoinEach(xs: seq<string>)
    ensures Words(Join(" ", xs)) == WordsOfEach(xs)
    decreases |xs|
  {
    if |xs| == 1 {
      assert WordsOfEach(xs[1..]) == [];
    } else if |xs| > 1 {
      WordsOfJoinEach(xs[1..]);
      assert xs[0] + " " + Join(" ", xs[1..]) == xs[0] + [' '] + Join(" ", xs[1..]);
      WordsAroundSpace(xs[0], ' ', Join(" ", xs[1..]));
    }
  }

  lemma {:induction false} WordsStripLeft(s: string)
    ensures Words(StripLeft(s)) == Words(s)
    decreases |s|
  {
    if |s| > 0 && IsSpace(s[0]) {
      WordsStripLeft(s[1..]);
    }
  }

  lemma WordsStripRight(s: string)
    ensures Words(StripRight(s)) == Words(s)
  {
    var r := StripRight(s);
    var t := s[|r|..];
    if |t| > 0 {
      assert s == r + [t[0]] + t[1..];
      assert AllSpace(t[1..]) by {
        forall i | 0 <= i < |t| - 1
          ensures IsSpace(t[1..][i])
        {
          assert t[1..][i] == t[i + 1];
        }
      }
      WordsAroundSpace(r, t[0], t[1..]);
      WordsAllSpace(t[1..]);
    }
  }

  /** `s.strip().split() == s.split()`. */
  lemma WordsStrip(s: string)
    ensures Words(Strip(s)) == Words(s)
  {
    WordsStripLeft(s);
    WordsStripRight(StripLeft(s));
  }

  /** Words joined by single spaces have no leading, trailing or doubled whitespace. */
  lemma {:induction false} JoinWordsShape(ws: seq<string>)
    requires forall i :: 0 <= i < |ws| ==> IsWord(ws[i])
    ensures Trimmed(Join(" ", ws)) && NoDoubleSpace(Join(" ", ws))
    ensures |ws| > 0 ==> |Join(" ", ws)| > 0
    decreases |ws|
  {
    if |ws| > 1 {
      JoinWordsShape(ws[1..]);
      var t := Join(" ", ws[1..]);
      var r := ws[0] + " " + t;
      assert Join(" ", ws) == r;
      forall i | 0 <= i < |r| - 1
        ensures !(IsSpace(r[i]) && IsSpace(r[i + 1]))
      {
        if i < |ws[0]| {
          assert r[i] == ws[0][i];
        } else if i == |ws[0]| {
          assert r[i + 1] == t[0];
        } else {
          assert r[i] == t[i - |ws[0]| - 1] && r[i + 1] == t[i - |ws[0]|];
        }
      }
    }
  }

  /** An occurrence in a suffix is an occurrence in the whole. */
  lemma ContainsInSuffix(x: string, d: nat, m: string)
    requires d <= |x| && Contains(x[d..], m)
    ensures Contains(x, m)
  {
    var j := Find(x[d..], m).value;
    assert x[d..|x|] == x[d..];
    OccursInSlice(x, d, |x|, m, j);
    OccursContains(x, m, d + j);
  }

  /** An occurrence in a prefix is an occurrence in the whole. */
  lemma ContainsInPrefix(x: string, k: nat, m: string)
    requires k <= |x| && Contains(x[..k], m)
    ensures Contains(x, m)
  {
    var j := Find(x[..k], m).value;
    OccursInSlice(x, 0, k, m, j);
    OccursContains(x, m, j);
  }

  /** A whitespace-free `m` in the joined words of a text that starts with a
      word lies in that word or in the joined words after it. */
  lemma FirstWordOrRest(x: string, m: string)
    requires |x| > 0 && !IsSpace(x[0]) && NoSpace(m)
    requires Contains(Join(" ", Words(x)), m)
    ensures Contains(x[..WordEnd(x, 1)], m) || Contains(Join(" ", Words(x[WordEnd(x, 1)..])), m)
  {
    var k := WordEnd(x, 1);
    var rest := Words(x[k..]);
    assert Words(x) == [x[..k]] + rest;
    if |rest| == 0 {
      assert Join(" ", Words(x)) == x[..k];
    } else {
      JoinCons(" ", x[..k], rest);
      assert Join(" ", Words(x)) == x[..k] + [' '] + Join(" ", rest);
      ContainsAcrossSpace(x[..k], ' ', Join(" ", rest), m);
    }
  }

  /** No word of `x` contains a whitespace-free `m` that `x` does not contain. */
  lemma {:induction false} JoinWordsContains(x: string, m: string)
    requires NoSpace(m)
    requires Contains(Join(" ", Words(x)), m)
    ensures Contains(x, m)
    decreases |x|
  {
    if |x| == 0 {
    } else if IsSpace(x[0]) {
      JoinWordsContains(x[1..], m);
      ContainsInSuffix(x, 1, m);
    } else {
      var k := WordEnd(x, 1);
      FirstWordOrRest(x, m);
      if Contains(x[..k], m) {
        ContainsInPrefix(x, k, m);
      } else {
        JoinWordsContains(x[k..], m);
        ContainsInSuffix(x, k, m);
      }
    }
  }

  // ---------------------------------------------------------------------------
  // re.sub(r'\s+', ' ', s)

  /** `re.sub(r'\s+', ' ', s)`: every maximal whitespace run becomes one space. */
  function CollapseSpaces(s: string): (r: string)
    ensures (|r| == 0) == (|s| == 0)
    ensures |r| > 0 ==> (IsSpace(r[0]) <==> IsSpace(s[0]))
    ensures NoDoubleSpace(r)
    decreases |s|
  {
    if |s| == 0 then ""
    else if IsSpace(s[0]) then
      var t := StripLeft(s[1..]);
      var r := CollapseSpaces(t);
      assert |r| > 0 ==> r[0] == ([' '] + r)[1];
      " " + r
    else
      var r := CollapseSpaces(s[1..]);
      [s[0]] + r
  }

  lemma {:induction false} CollapseAfterWord(a: string, b: string)
    requires NoSpace(a)
    ensures CollapseSpaces(a + b) == a + CollapseSpaces(b)
    decreases |a|
  {
    if |a| > 0 {
      assert (a + b)[1..] == a[1..] + b;
      CollapseAfterWord(a[1..], b);
    } else {
      assert a + b == b;
    }
  }

  /** After the first word of a trimmed string, the rest starts with
      whitespace and, once that is stripped, is non-empty and trimmed. */
  lemma AfterFirstWord(y: string, k: nat)
    requires Trimmed(y) && |y| > 0 && k == WordEnd(y, 1) && k < |y|
    ensures IsSpace(y[k]) && k + 1 < |y|
    ensures |StripLeft(y[k + 1..])| > 0 && Trimmed(StripLeft(y[k + 1..]))
  {
    var u := y[k + 1..];
    var z := StripLeft(u);
    assert IsSpace(y[k]);
    assert u[|u| - 1] == y[|y| - 1];
    assert z[|z| - 1] == u[|u| - 1];
  }

  lemma WordsFirst(y: string, k: nat)
    requires |y| > 0 && !IsSpace(y[0]) && k == WordEnd(y, 1)
    ensures Words(y) == [y[..k]] + Words(y[k..])
  {
  }

  lemma WordsSkipSpace(u: string)
    requires |u| > 0 && IsSpace(u[0])
    ensures Words(u) == Words(StripLeft(u[1..]))
  {
    WordsStripLeft(u[1..]);
  }

  lemma CollapseSkipSpace(u: string)
    requires |u| > 0 && IsSpace(u[0])
    ensures CollapseSpaces(u) == " " + CollapseSpaces(StripLeft(u[1..]))
  {
  }

  lemma WordsNonEmpty(z: string)
    requires |z| > 0 && !IsSpace(z[0])
    ensures |Words(z)| > 0
  {
    WordsFirst(z, WordEnd(z, 1));
  }

  /** On a string without leading or trailing whitespace the collapse is
      the same as joining its words with single spaces. */
  lemma {:induction false} CollapseTrimmed(y: string)
    requires Trimmed(y)
    ensures CollapseSpaces(y) == Join(" ", Words(y))
    decreases |y|, 1
  {
    if |y| > 0 {
      var k := WordEnd(y, 1);
      if k == |y| {
        CollapseOneWord(y);
      } else {
        FirstWordSplit(y, k);
        var w, u := y[..k], y[k..];
        var z := StripLeft(u[1..]);
        CollapseWordThenRest(y, w, u, z);
      }
    }
  }

  /** A trimmed string with more than one word: its first word, the
      whitespace after it, and the trimmed rest. */
  lemma FirstWordSplit(y: string, k: nat)
    requires Trimmed(y) && |y| > 0 && k == WordEnd(y, 1) && k < |y|
    ensures y == y[..k] + y[k..] && NoSpace(y[..k]) && Words(y) == [y[..k]] + Words(y[k..])
    ensures |y[k..]| > 0 && IsSpace(y[k..][0])
    ensures |StripLeft(y[k..][1..])| > 0 && Trimmed(StripLeft(y[k..][1..]))
  {
    SplitAt(y, k);
    WordsFirst(y, k);
    RestAfterWord(y, k);
    FirstWordNoSpace(y, k);
  }

  /** A string is its prefix followed by its suffix. */
  lemma SplitAt(y: string, k: nat)
    requires k <= |y|
    ensures y == y[..k] + y[k..]
  {
  }

  /** The first word has no whitespace. */
  lemma FirstWordNoSpace(y: string, k: nat)
    requires |y| > 0 && !IsSpace(y[0]) && k == WordEnd(y, 1)
    ensures NoSpace(y[..k])
  {
    forall i | 0 <= i < k
      ensures !IsSpace(y[..k][i])
    {
      assert y[..k][i] == y[i];
    }
  }

  /** What follows the first word's whitespace, stripped, is trimmed and
      non-empty. */
  lemma RestAfterWord(y: string, k: nat)
    requires Trimmed(y) && |y| > 0 && k == WordEnd(y, 1) && k < |y|
    ensures |StripLeft(y[k..][1..])| > 0 && Trimmed(StripLeft(y[k..][1..]))
  {
    AfterFirstWord(y, k);
    assert y[k..][1..] == y[k + 1..];
  }

  /** A trimmed string that is a single word is its own collapse and its own
      join of words. */
  lemma CollapseOneWord(y: string)
    requires Trimmed(y) && |y| > 0 && WordEnd(y, 1) == |y|
    ensures CollapseSpaces(y) == Join(" ", Words(y))
  {
    var k := WordEnd(y, 1);
    WordsFirst(y, k);
    assert y[..k] == y && y[k..] == [];
    CollapseAfterWord(y, "");
    assert y + "" == y;
  }

  /** The step of `CollapseTrimmed` past the first word `w` and the
      whitespace starting `u`, down to the trimmed rest `z`. */
  lemma {:induction false} CollapseWordThenRest(y: string, w: string, u: string, z: string)
    requires y == w + u && NoSpace(w) && Words(y) == [w] + Words(u)
    requires |u| > 0 && IsSpace(u[0]) && z == StripLeft(u[1..]) && |z| > 0 && Trimmed(z)
    ensures CollapseSpaces(y) == Join(" ", Words(y))
    decreases |y|, 0
  {
    CollapseTrimmed(z);
    calc {
      CollapseSpaces(y);
      { CollapseAfterWord(w, u); }
      w + CollapseSpaces(u);
      { CollapseSkipSpace(u); }
      w + (" " + CollapseSpaces(z));
      w + (" " + Join(" ", Words(z)));
      { WordsNonEmpty(z); JoinCons(" ", w, Words(z)); }
      Join(" ", [w] + Words(z));
      { WordsSkipSpace(u); }
      Join(" ", Words(y));
    }
  }

  /** `re.sub(r'\s+', ' ', s.strip()).strip()` equals `' '.join(s.split())`. */
  lemma NormalizeSpaces(s: string)
    ensures Strip(CollapseSpaces(Strip(s))) == Join(" ", Words(s))
  {
    CollapseTrimmed(Strip(s));
    WordsStrip(s);
    JoinWordsShape(Words(s));
    StripTrimmed(Join(" ", Words(s)));
  }

  // ---------------------------------------------------------------------------
  // split(sep)

  /** `s.split(sep)` for a non-empty separator: scan left to right, cut at each
      non-overlapping occurrence. */
  function SplitStr(s: string, sep: string): (parts: seq<string>)
    requires |sep| > 0
    ensures |parts| >= 1
    decreases |s|
  {
    match Find(s, sep)
    case None => [s]
    case Some(k) => [s[..k]] + SplitStr(s[k + |sep|..], sep)
  }

  /** The text before the first separator holds no separator. */
  lemma BeforeFirstFree(s: string, sep: string, k: nat)
    requires |sep| > 0 && Find(s, sep) == Some(k)
    ensures !Contains(s[..k], sep)
  {
    if Contains(s[..k], sep) {
      var j := Find(s[..k], sep).value;
      OccursInSlice(s, 0, k, sep, j);
    }
  }

  /** No piece of `s.split(sep)` contains `sep`. */
  lemma {:induction false} SplitPiecesFree(s: string, sep: string)
    requires |sep| > 0
    ensures forall i :: 0 <= i < |SplitStr(s, sep)| ==> !Contains(SplitStr(s, sep)[i], sep)
    decreases |s|
  {
    var f := Find(s, sep);
    if f.Some? {
      var k := f.value;
      SplitUnfold(s, sep, k);
      BeforeFirstFree(s, sep, k);
      SplitPiecesFree(s[k + |sep|..], sep);
    }
  }

  /** `sep.join(s.split(sep)) == s`. */
  lemma {:induction false} SplitJoin(s: string, sep: string)
    requires |sep| > 0
    ensures Join(sep, SplitStr(s, sep)) == s
    decreases |s|
  {
    var f := Find(s, sep);
    if f.Some? {
      var k := f.value;
      var rest := s[k + |sep|..];
      SplitUnfold(s, sep, k);
      SplitJoin(rest, sep);
      JoinCons(sep, s[..k], SplitStr(rest, sep));
      assert s == s[..k] + sep + rest;
    }
  }

  /** `s.split(sep)[-1]`. */
  function LastPiece(s: string, sep: string): string
    requires |sep| > 0
  {
    Last(SplitStr(s, sep))
  }

  lemma LastPieceNoSeparator(s: string, sep: string)
    requires |sep| > 0
    ensures !Contains(LastPiece(s, sep), sep)
  {
    SplitPiecesFree(s, sep);
  }

  lemma LastPieceWhole(s: string, sep: string)
    requires |sep| > 0 && !Contains(s, sep)
    ensures LastPiece(s, sep) == s
  {
  }

  /** The last piece after a final separator: if `s == a + sep + b`, `b` has no
      separator and no occurrence of `sep` overlaps the final one from the left,
      then `s.split(sep)[-1] == b`. */
  lemma SplitUnfold(s: string, sep: string, k: nat)
    requires |sep| > 0 && Find(s, sep) == Some(k)
    ensures SplitStr(s, sep) == [s[..k]] + SplitStr(s[k + |sep|..], sep)
  {
  }

  lemma LastPieceStep(s: string, sep: string, k: nat)
    requires |sep| > 0 && Find(s, sep) == Some(k)
    ensures LastPiece(s, sep) == LastPiece(s[k + |sep|..], sep)
  {
    var rest := SplitStr(s[k + |sep|..], sep);
    SplitUnfold(s, sep, k);
    assert Last([s[..k]] + rest) == Last(rest);
  }

  lemma {:induction false} LastPieceAfter(a: string, sep: string, b: string)
    requires |sep| > 0
    requires !Contains(b, sep)
    requires forall j :: |a| - |sep| < j < |a| ==> !OccursAt(a + sep + b, sep, j)
    ensures LastPiece(a + sep + b, sep) == b
    decreases |a|
  {
    FirstSeparatorBound(a, sep, b);
    var k := Find(a + sep + b, sep).value;
    if k == |a| {
      LastPieceAtEnd(a, sep, b);
    } else {
      NoLateOccurrenceShift(a, sep, b, k + |sep|);
      LastPieceAfter(a[k + |sep|..], sep, b);
      LastPieceShift(a, sep, b, k);
    }
  }

  /** In `a + sep + b` the first separator is the one after `a`, or lies
      wholly inside `a`. */
  lemma FirstSeparatorBound(a: string, sep: string, b: string)
    requires |sep| > 0
    requires forall j :: |a| - |sep| < j < |a| ==> !OccursAt(a + sep + b, sep, j)
    ensures Find(a + sep + b, sep).Some?
    ensures Find(a + sep + b, sep).value == |a| || Find(a + sep + b, sep).value + |sep| <= |a|
  {
    var s := a + sep + b;
    assert OccursAt(s, sep, |a|) by {
      assert s[|a|..|a| + |sep|] == sep;
    }
    OccursContains(s, sep, |a|);
  }

  /** When the first separator is the one after `a`, the last piece is `b`. */
  lemma LastPieceAtEnd(a: string, sep: string, b: string)
    requires |sep| > 0 && !Contains(b, sep)
    requires Find(a + sep + b, sep) == Some(|a|)
    ensures LastPiece(a + sep + b, sep) == b
  {
    var s := a + sep + b;
    LastPieceStep(s, sep, |a|);
    SuffixOfConcat(a, sep, b, |a|);
    assert a[|a|..] == "";
    LastPieceWhole(b, sep);
  }

  /** When the first separator lies inside `a`, the last piece is that of
      the rest after it. */
  lemma LastPieceShift(a: string, sep: string, b: string, k: nat)
    requires |sep| > 0 && k + |sep| <= |a|
    requires Find(a + sep + b, sep) == Some(k)
    requires LastPiece(a[k + |sep|..] + sep + b, sep) == b
    ensures LastPiece(a + sep + b, sep) == b
  {
    LastPieceStep(a + sep + b, sep, k);
    SuffixOfConcat(a, sep, b, k + |sep|);
  }

  /** Dropping a prefix of `a` from `a + sep + b`. */
  lemma SuffixOfConcat(a: string, sep: string, b: string, d: nat)
    requires d <= |a|
    ensures (a + sep + b)[d..] == a[d..] + sep + b
  {
  }

  /** Dropping a prefix of `a` keeps `sep` from occurring across the end of
      what is left of `a`. */
  lemma NoLateOccurrenceShift(a: string, sep: string, b: string, d: nat)
    requires d <= |a|
    requires forall j :: |a| - |sep| < j < |a| ==> !OccursAt(a + sep + b, sep, j)
    ensures forall j :: |a[d..]| - |sep| < j < |a[d..]| ==> !OccursAt(a[d..] + sep + b, sep, j)
  {
    var s := a + sep + b;
    var t := a[d..] + sep + b;
    assert t == s[d..];
    forall j | |a[d..]| - |sep| < j < |a[d..]|
      ensures !OccursAt(t, sep, j)
    {
      assert !OccursAt(s, sep, d + j);
      if 0 <= j && j + |sep| <= |t| {
        assert t[j..j + |sep|] == s[d + j..d + j + |sep|];
      }
    }
  }

  /** No proper suffix of `sep` is also a prefix of it, so two occurrences of
      `sep` never overlap (true of '، ', of any single character, and of
      'جواب:'). */
  predicate BorderFree(sep: string)
  {
    forall k :: 0 < k < |sep| ==> sep[k..] != sep[..|sep| - k]
  }

  /** An occurrence of `sep` that overlaps an occurrence of `sep` from the
      left is ruled out by `BorderFree`. */
  lemma NoOverlap(s: string, sep: string, j: int, i: int)
    requires BorderFree(sep)
    requires OccursAt(s, sep, i) && j < i < j + |sep|
    ensures !OccursAt(s, sep, j)
  {
    var k := i - j;
    assert sep[k..] != sep[..|sep| - k];
    var t :| 0 <= t < |sep| - k && sep[k..][t] != sep[..|sep| - k][t];
    assert s[i + t] == s[i..i + |sep|][t] == sep[t];
    if 0 <= j {
      assert s[j..j + |sep|][k + t] == s[i + t] != sep[k + t];
    }
  }

  /** In `x + sep + rest`, with no `sep` in `x`, the first separator is the
      one after `x`. */
  lemma FindAfterFree(x: string, sep: string, rest: string)
    requires |sep| > 0 && BorderFree(sep) && !Contains(x, sep)
    ensures Find(x + sep + rest, sep) == Some(|x|)
  {
    var s := x + sep + rest;
    assert s[|x|..|x| + |sep|] == sep;
    forall j | 0 <= j < |x|
      ensures !OccursAt(s, sep, j)
    {
      if j + |sep| <= |x| {
        assert s[j..j + |sep|] == x[j..j + |sep|];
        assert !OccursAt(x, sep, j);
      } else {
        NoOverlap(s, sep, j, |x|);
      }
    }
    OccursContains(s, sep, |x|);
  }

  /** `sep.join(xs).split(sep) == xs` for a non-empty list of pieces none of
      which contains an overlap-free separator. */
  lemma {:induction false} SplitOfJoin(sep: string, xs: seq<string>)
    requires |sep| > 0 && BorderFree(sep) && |xs| > 0
    requires forall i :: 0 <= i < |xs| ==> !Contains(xs[i], sep)
    ensures SplitStr(Join(sep, xs), sep) == xs
    decreases |xs|
  {
    if |xs| == 1 {
      assert Join(sep, xs) == xs[0];
    } else {
      var rest := Join(sep, xs[1..]);
      assert xs == [xs[0]] + xs[1..];
      JoinCons(sep, xs[0], xs[1..]);
      FindAfterFree(xs[0], sep, rest);
      var s := xs[0] + sep + rest;
      SplitUnfold(s, sep, |xs[0]|);
      assert s[..|xs[0]|] == xs[0];
      assert s[|xs[0]| + |sep|..] == rest;
      SplitOfJoin(sep, xs[1..]);
    }
  }

  /** `s.split(c)` has one more piece than `s` has `c` characters. */
  lemma NoCharBeforeFirst(s: string, c: char, k: nat)
    requires Find(s, [c]) == Some(k)
    ensures s == s[..k] + [c] + s[k + 1..]
    ensures multiset(s[..k])[c] == 0
  {
    assert s[k..k + 1] == [c];
    forall j | 0 <= j < k
      ensures s[..k][j] != c
    {
      assert !OccursAt(s, [c], j);
      assert s[j..j + 1] == [s[j]];
    }
  }

  lemma NoCharNoCount(s: string, c: char)
    requires Find(s, [c]).None?
    ensures multiset(s)[c] == 0
  {
    forall j | 0 <= j < |s|
      ensures s[j] != c
    {
      assert !OccursAt(s, [c], j);
      assert s[j..j + 1] == [s[j]];
    }
  }

  /** `s.split(c)` has one more piece than `s` has `c` characters. */
  lemma {:induction false} SplitCharCount(s: string, c: char)
    ensures |SplitStr(s, [c])| == multiset(s)[c] + 1
    decreases |s|
  {
    var f := Find(s, [c]);
    if f.None? {
      NoCharNoCount(s, c);
    } else {
      var k := f.value;
      var rest := s[k + 1..];
      SplitUnfold(s, [c], k);
      SplitCharCount(rest, c);
      NoCharBeforeFirst(s, c, k);
      calc {
        multiset(s)[c];
        multiset(s[..k] + [c] + rest)[c];
        multiset(s[..k])[c] + multiset([c])[c] + multiset(rest)[c];
      }
    }
  }

  // ---------------------------------------------------------------------------
  // replace and lower

  /** `s.replace(a, b)` for single characters. */
  function ReplaceChar(s: string, a: char, b: char): (r: string)
    ensures |r| == |s|
    ensures forall i :: 0 <= i < |s| ==> r[i] == (if s[i] == a then b else s[i])
  {
    seq(|s|, i requires 0 <= i < |s| => if s[i] == a then b else s[i])
  }

  /** `s.replace(pat, rep)`: left to right, non-overlapping. */
  function ReplaceAll(s: string, pat: string, rep: string): string
    requires |pat| > 0
    decreases |s|
  {
    var f := Find(s, pat);
    if f.None? then s else s[..f.value] + rep + ReplaceAll(s[f.value + |pat|..], pat, rep)
  }

  /** `s.replace(pat, rep) == rep.join(s.split(pat))`: replacing is cutting
      at every occurrence and gluing the pieces back with `rep`. */
  lemma {:induction false} ReplaceIsSplitJoin(s: string, pat: string, rep: string)
    requires |pat| > 0
    ensures ReplaceAll(s, pat, rep) == Join(rep, SplitStr(s, pat))
    decreases |s|
  {
    if Find(s, pat).Some? {
      ReplaceIsSplitJoin(s[Find(s, pat).value + |pat|..], pat, rep);
      ReplaceSplitStep(s, pat, rep);
    }
  }

  /** One occurrence of the induction behind `ReplaceIsSplitJoin`. */
  lemma ReplaceSplitStep(s: string, pat: string, rep: string)
    requires |pat| > 0 && Find(s, pat).Some?
    requires var rest := s[Find(s, pat).value + |pat|..];
      ReplaceAll(rest, pat, rep) == Join(rep, SplitStr(rest, pat))
    ensures ReplaceAll(s, pat, rep) == Join(rep, SplitStr(s, pat))
  {
    ReplaceUnfold(s, pat, rep);
    JoinSplitUnfold(s, pat, rep);
  }

  /** Joining the parts with `rep` puts `rep` where the first occurrence was. */
  lemma JoinSplitUnfold(s: string, pat: string, rep: string)
    requires |pat| > 0 && Find(s, pat).Some?
    ensures Join(rep, SplitStr(s, pat)) ==
      s[..Find(s, pat).value] + rep + Join(rep, SplitStr(s[Find(s, pat).value + |pat|..], pat))
  {
    var k := Find(s, pat).value;
    var parts := SplitStr(s[k + |pat|..], pat);
    SplitUnfold(s, pat, k);
    JoinCons(rep, s[..k], parts);
  }

  /** A text without the pattern is left as it is. */
  lemma ReplaceAbsent(s: string, pat: string, rep: string)
    requires |pat| > 0 && !Contains(s, pat)
    ensures ReplaceAll(s, pat, rep) == s
  {
  }

  /** Replacing at the first occurrence, then in the rest. */
  lemma ReplaceUnfold(s: string, pat: string, rep: string)
    requires |pat| > 0 && Find(s, pat).Some?
    ensures ReplaceAll(s, pat, rep) ==
      s[..Find(s, pat).value] + rep + ReplaceAll(s[Find(s, pat).value + |pat|..], pat, rep)
  {
  }

  /** `c.lower()` for the characters the model distinguishes: ASCII capitals
      fold to lower case; every other character, Urdu script included, is kept. */
  function LowerChar(c: char): char
  {
    if 'A' <= c <= 'Z' then (c as int + 32) as char else c
  }

  function Lower(s: string): (r: string)
    ensures |r| == |s|
    ensures forall i :: 0 <= i < |s| ==> r[i] == LowerChar(s[i])
  {
    seq(|s|, i requires 0 <= i < |s| => LowerChar(s[i]))
  }

  predicate LowerFixed(k: string)
  {
    forall i :: 0 <= i < |k| ==> LowerChar(k[i]) == k[i]
  }

  /** Lower-casing keeps every occurrence of a string that lower-casing fixes. */
  lemma LowerKeepsContains(s: string, k: string)
    requires LowerFixed(k) && Contains(s, k)
    ensures Contains(Lower(s), k)
  {
    var j := Find(s, k).value;
    assert Lower(s)[j..j + |k|] == k;
    OccursContains(Lower(s), k, j);
  }
}
