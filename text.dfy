/** Character classes and string operations that both autocomplete engines build on:
    Python's string.punctuation, str.lower, str.split, str.strip, re.sub(r'\s+', ' ', ...),
    the `in` substring test, and the ordering of str values. Only the ASCII part of
    Python's Unicode tables is modelled. */
module Text {
  import Options

  /** A character of Python's string.punctuation: !"#$%&'()*+,-./:;<=>?@[\]^_`{|}~ */
  predicate IsPunct(c: char) {
    ('!' <= c <= '/') || (':' <= c <= '@') || ('[' <= c <= '`') || ('{' <= c <= '~')
  }

  /** A character that str.isspace() accepts, restricted to ASCII:
      space, \t \n \v \f \r and the separators 0x1c-0x1f. */
  predicate IsSpace(c: char) {
    c == ' ' || (9 <= c as int <= 13) || (28 <= c as int <= 31)
  }

  predicate IsUpper(c: char) {
    'A' <= c <= 'Z'
  }

  /** str.lower() on one ASCII character. */
  function Lower(c: char): (d: char)
    ensures !IsUpper(d)
    ensures IsPunct(d) == IsPunct(c) && IsSpace(d) == IsSpace(c)
    ensures IsUpper(c) ==> d as int == c as int + 32
    ensures !IsUpper(c) ==> d == c
  {
    if IsUpper(c) then (c as int + 32) as char else c
  }

  /** str.lower() */
  function LowerStr(s: string): string {
    seq(|s|, i requires 0 <= i < |s| => Lower(s[i]))
  }

  /** s.translate(str.maketrans('', '', string.punctuation)): drop every punctuation character. */
  function RemovePunct(s: string): (r: string)
    ensures forall c :: c in r ==> c in s && !IsPunct(c)
    ensures (forall c :: c in s ==> !IsPunct(c)) ==> r == s
  {
    if s == [] then [] else (if IsPunct(s[0]) then [] else [s[0]]) + RemovePunct(s[1..])
  }

  /** Punctuation is removed piece by piece: the result for s + t is the results for s and t joined. */
  lemma {:induction false} RemovePunctAppend(s: string, t: string)
    ensures RemovePunct(s + t) == RemovePunct(s) + RemovePunct(t)
    decreases |s|
  {
    if s == [] {
      assert s + t == t;
    } else {
      var h := if IsPunct(s[0]) then [] else [s[0]];
      assert (s + t)[0] == s[0] && (s + t)[1..] == s[1..] + t;
      assert RemovePunct(s + t) == h + RemovePunct(s[1..] + t);
      RemovePunctAppend(s[1..], t);
      assert RemovePunct(s) == h + RemovePunct(s[1..]);
      Options.ConcatAssoc(h, RemovePunct(s[1..]), RemovePunct(t));
    }
  }

  /** A punctuation character is removed; every other character is kept. */
  lemma RemovePunctChar(c: char)
    ensures RemovePunct([c]) == if IsPunct(c) then [] else [c]
  {
    assert [c][1..] == [];
  }

  /** Length of the leading run of non-whitespace characters of s. */
  function WordLen(s: string): (n: nat)
    ensures n <= |s|
    ensures forall i :: 0 <= i < n ==> !IsSpace(s[i])
    ensures n < |s| ==> IsSpace(s[n])
  {
    if s == [] || IsSpace(s[0]) then 0 else 1 + WordLen(s[1..])
  }

  /** str.split() with no argument: the maximal runs of non-whitespace characters, in order. */
  function Words(s: string): seq<string>
    decreases |s|
  {
    if s == [] then []
    else if IsSpace(s[0]) then Words(s[1..])
    else [s[..WordLen(s)]] + Words(s[WordLen(s)..])
  }

  /** Every word is a non-empty run of non-whitespace characters of s. */
  lemma {:induction false} WordsMeaning(s: string)
    ensures forall w :: w in Words(s) ==> w != [] && forall c :: c in w ==> c in s && !IsSpace(c)
    decreases |s|
  {
    if s != [] {
      if IsSpace(s[0]) {
        WordsMeaning(s[1..]);
      } else {
        var n := WordLen(s);
        WordsMeaning(s[n..]);
        assert forall c :: c in s[..n] ==> c in s;
        assert forall c :: c in s[n..] ==> c in s;
      }
    }
  }

  /** " ".join(ws) */
  function Join(ws: seq<string>): string {
    if ws == [] then [] else if |ws| == 1 then ws[0] else ws[0] + " " + Join(ws[1..])
  }

  /** The shape every normalizer output has: no punctuation, no upper-case letter,
      no whitespace other than ' ', no leading or trailing space and no two spaces in a row. */
  predicate IsNormal(t: string) {
    && (forall i :: 0 <= i < |t| ==> !IsPunct(t[i]) && !IsUpper(t[i]) && (IsSpace(t[i]) ==> t[i] == ' '))
    && (t != [] ==> t[0] != ' ' && t[|t| - 1] != ' ')
    && (forall i :: 0 <= i < |t| - 1 ==> NoDoubleSpaceAt(t, i))
  }

  /** No space at i is followed by another one. */
  predicate NoDoubleSpaceAt(t: string, i: int) {
    0 <= i < |t| - 1 && t[i] == ' ' ==> t[i + 1] != ' '
  }

  /** A word that may appear in a normalized string. */
  predicate CleanWord(w: string) {
    w != [] && forall c :: c in w ==> !IsPunct(c) && !IsUpper(c) && !IsSpace(c)
  }

  lemma {:induction false} JoinIsNormal(ws: seq<string>)
    requires forall w :: w in ws ==> CleanWord(w)
    ensures IsNormal(Join(ws))
  {
    if |ws| > 1 {
      JoinIsNormal(ws[1..]);
      var w, rest := ws[0], Join(ws[1..]);
      assert CleanWord(w) && w[|w| - 1] in w;
      assert Join(ws) == w + " " + rest;
      assert rest != [] by {
        assert ws[1] in ws;
        JoinStartsWith(ws[1..]);
      }
      var t := Join(ws);
      forall i | 0 <= i < |t|
        ensures !IsPunct(t[i]) && !IsUpper(t[i]) && (IsSpace(t[i]) ==> t[i] == ' ')
      {
        if i < |w| { assert t[i] == w[i] && w[i] in w; }
        else if i > |w| { assert t[i] == rest[i - |w| - 1]; }
      }
      forall i | 0 <= i < |t| - 1 ensures NoDoubleSpaceAt(t, i) {
        if i < |w| - 1 { assert t[i] == w[i] && w[i] in w; }
        else if i == |w| - 1 { assert t[i] == w[i]; }
        else if i == |w| { assert t[i + 1] == rest[0]; }
        else { assert NoDoubleSpaceAt(rest, i - |w| - 1); }
      }
    } else if |ws| == 1 {
      assert ws[0] in ws;
      var w := ws[0];
      forall i | 0 <= i < |w| ensures !IsSpace(w[i]) && !IsPunct(w[i]) && !IsUpper(w[i]) {
        assert w[i] in w;
      }
    }
  }

  /** A join of clean words begins with the first character of the first word. */
  lemma JoinStartsWith(ws: seq<string>)
    requires ws != [] && ws[0] != []
    ensures Join(ws) != [] && Join(ws)[0] == ws[0][0]
  {
  }

  lemma {:induction false} JoinWordsOfNormal(t: string)
    requires IsNormal(t)
    ensures Join(Words(t)) == t
    decreases |t|
  {
    if t != [] {
      var n := WordLen(t);
      if n < |t| {
        assert t[n] == ' ';
        assert n + 1 < |t| && t[n + 1] != ' ' by {
          assert NoDoubleSpaceAt(t, n);
        }
        NormalTail(t, n + 1);
        JoinWordsOfNormal(t[n + 1..]);
        JoinWordsStep(t, n);
      } else {
        assert Words(t) == [t] + Words([]) by {
          assert !IsSpace(t[0]) && t[..n] == t;
        }
      }
    }
  }

  /** The first word, one space, and a rest that already joins back to itself. */
  lemma JoinWordsStep(t: string, n: nat)
    requires t != [] && !IsSpace(t[0]) && n == WordLen(t)
    requires n + 1 < |t| && t[n] == ' ' && !IsSpace(t[n + 1])
    requires Join(Words(t[n + 1..])) == t[n + 1..]
    ensures Join(Words(t)) == t
  {
    var w, z := t[..n], t[n + 1..];
    WordsAfterFirst(t, n);
    WordsOfClean(z);
    JoinCons(w, Words(z));
    SplitAt(t, n);
  }

  /** split() of a first word followed by one space: that word, then the words of the rest. */
  lemma WordsAfterFirst(t: string, n: nat)
    requires t != [] && !IsSpace(t[0]) && n == WordLen(t) && n < |t|
    ensures Words(t) == [t[..n]] + Words(t[n + 1..])
  {
    assert t[n..][1..] == t[n + 1..];
  }

  lemma SplitAt(t: string, n: nat)
    requires n < |t|
    ensures t == t[..n] + [t[n]] + t[n + 1..]
  {
    assert t == t[..n] + t[n..];
    assert t[n..] == [t[n]] + t[n + 1..];
  }

  /** A normalized string stays normalized after cutting a prefix that ends before a non-space. */
  lemma NormalTail(t: string, m: nat)
    requires IsNormal(t) && m < |t| && t[m] != ' '
    ensures IsNormal(t[m..])
  {
    var z := t[m..];
    forall i | 0 <= i < |z| - 1 ensures NoDoubleSpaceAt(z, i) {
      assert NoDoubleSpaceAt(t, m + i);
      assert z[i] == t[m + i] && z[i + 1] == t[m + i + 1];
    }
  }

  /** Python's str.lstrip() with no argument: drop the leading whitespace. */
  function DropSpaces(s: string): (r: string)
    ensures |r| <= |s| && r == s[|s| - |r|..]
    ensures r == [] || !IsSpace(r[0])
    ensures forall i :: 0 <= i < |s| - |r| ==> IsSpace(s[i])
  {
    if s != [] && IsSpace(s[0]) then DropSpaces(s[1..]) else s
  }

  /** Python's str.rstrip() with no argument: drop the trailing whitespace. */
  function StripRight(s: string): (r: string)
    ensures |r| <= |s| && r == s[..|r|]
    ensures r == [] || !IsSpace(r[|r| - 1])
    ensures forall i :: |r| <= i < |s| ==> IsSpace(s[i])
  {
    if s != [] && IsSpace(s[|s| - 1]) then StripRight(s[..|s| - 1]) else s
  }

  /** Python's str.strip() with no argument. */
  function Strip(s: string): (r: string)
    ensures r == [] || (!IsSpace(r[0]) && !IsSpace(r[|r| - 1]))
  {
    StripRight(DropSpaces(s))
  }

  /** r is the slice of s starting at i, and everything of s outside that slice is whitespace. */
  ghost predicate SpaceAround(s: string, r: string, i: int) {
    0 <= i && i + |r| <= |s| && r == s[i..i + |r|]
    && (forall j :: 0 <= j < i ==> IsSpace(s[j]))
    && (forall j :: i + |r| <= j < |s| ==> IsSpace(s[j]))
  }

  /** str.strip() keeps one slice of s: everything before and after that slice is whitespace. */
  lemma StripMeaning(s: string)
    ensures exists i :: SpaceAround(s, Strip(s), i)
  {
    var d := DropSpaces(s);
    var r := StripRight(d);
    assert Strip(s) == r;
    TrimmedSlice(s, d, r);
  }

  /** If d is s without leading whitespace and r is d without trailing whitespace, then r is
      the slice of s where d starts, with whitespace on both sides. */
  lemma TrimmedSlice(s: string, d: string, r: string)
    requires |d| <= |s| && d == s[|s| - |d|..]
    requires forall j :: 0 <= j < |s| - |d| ==> IsSpace(s[j])
    requires |r| <= |d| && r == d[..|r|]
    requires forall j :: |r| <= j < |d| ==> IsSpace(d[j])
    ensures SpaceAround(s, r, |s| - |d|)
  {
    var i := |s| - |d|;
    assert r == s[i..i + |r|];
    forall j | i + |r| <= j < |s| ensures IsSpace(s[j]) {
      assert s[j] == d[j - i];
    }
  }

  /** re.sub(r'\s+', ' ', s): every run of whitespace becomes one space. */
  function CollapseSpaces(s: string): string
    decreases |s|
  {
    if s == [] then []
    else if IsSpace(s[0]) then " " + CollapseSpaces(DropSpaces(s[1..]))
    else [s[0]] + CollapseSpaces(s[1..])
  }

  lemma {:induction false} WordsSkipSpaces(s: string)
    ensures Words(s) == Words(DropSpaces(s))
    decreases |s|
  {
    if s != [] && IsSpace(s[0]) {
      WordsSkipSpaces(s[1..]);
    }
  }

  lemma CollapseStartsClean(y: string)
    requires y == [] || !IsSpace(y[0])
    ensures CollapseSpaces(y) == [] || !IsSpace(CollapseSpaces(y)[0])
  {
  }

  lemma {:induction false} DropSpacesCollapse(s: string)
    ensures DropSpaces(CollapseSpaces(s)) == CollapseSpaces(DropSpaces(s))
  {
    if s != [] && IsSpace(s[0]) {
      var x := CollapseSpaces(DropSpaces(s[1..]));
      CollapseStartsClean(DropSpaces(s[1..]));
      assert DropSpaces(" " + x) == DropSpaces(x);
      DropSpacesOfClean(x);
      DropSpacesIdempotent(s[1..]);
    } else {
      CollapseStartsClean(s);
      DropSpacesOfClean(CollapseSpaces(s));
    }
  }

  lemma DropSpacesOfClean(x: string)
    requires x == [] || !IsSpace(x[0])
    ensures DropSpaces(x) == x
  {
  }

  lemma DropSpacesIdempotent(s: string)
    ensures DropSpaces(DropSpaces(s)) == DropSpaces(s)
  {
    DropSpacesOfClean(DropSpaces(s));
  }

  /** A leading run of non-whitespace characters is copied as it is. */
  lemma {:induction false} CollapseWordPrefix(y: string, k: nat)
    requires k <= |y| && forall i :: 0 <= i < k ==> !IsSpace(y[i])
    ensures CollapseSpaces(y) == y[..k] + CollapseSpaces(y[k..])
    decreases k
  {
    if k > 0 {
      CollapseWordPrefix(y, k - 1);
      var c, rest := y[k - 1], y[k..];
      assert y[k - 1..] == [c] + rest;
      CollapseCons(c, rest);
      SnocConcat(y, k, CollapseSpaces(rest));
    }
  }

  /** Moving one element from the front of the right operand to the end of the left one. */
  lemma SnocConcat<T>(y: seq<T>, k: nat, z: seq<T>)
    requires 0 < k <= |y|
    ensures y[..k - 1] + ([y[k - 1]] + z) == y[..k] + z
  {
    assert y[..k - 1] + [y[k - 1]] == y[..k];
    Options.ConcatAssoc(y[..k - 1], [y[k - 1]], z);
  }

  /** A non-whitespace character is copied as it is. */
  lemma CollapseCons(c: char, t: string)
    requires !IsSpace(c)
    ensures CollapseSpaces([c] + t) == [c] + CollapseSpaces(t)
  {
    assert ([c] + t)[1..] == t;
  }

  lemma {:induction false} StripRightAppend(a: string, b: string)
    requires b != [] && !IsSpace(b[0])
    ensures StripRight(a + b) == a + StripRight(b)
    decreases |b|
  {
    if IsSpace(b[|b| - 1]) {
      assert |b| >= 2;
      assert (a + b)[..|a + b| - 1] == a + b[..|b| - 1];
      StripRightAppend(a, b[..|b| - 1]);
    }
  }

  /** Trailing whitespace after the last word collapses to at most one space, which strip removes. */
  lemma CollapseLastWord(w: string, rest: string)
    requires w != [] && !IsSpace(w[|w| - 1])
    requires DropSpaces(rest) == []
    ensures StripRight(w + CollapseSpaces(rest)) == w
  {
    if rest != [] {
      assert IsSpace(rest[0]);
      assert DropSpaces(rest[1..]) == [];
      assert CollapseSpaces(rest) == " ";
      assert StripRight(w + " ") == StripRight(w);
    } else {
      assert w + CollapseSpaces(rest) == w;
    }
  }

  /** The whitespace run between two words collapses to exactly one space. */
  lemma CollapseGap(rest: string)
    requires rest != [] && IsSpace(rest[0])
    ensures CollapseSpaces(rest) == " " + CollapseSpaces(DropSpaces(rest))
  {
  }

  lemma WordsOfClean(z: string)
    requires z != [] && !IsSpace(z[0])
    ensures Words(z) != []
    ensures CollapseSpaces(z) != [] && !IsSpace(CollapseSpaces(z)[0])
  {
    assert Words(z) == [z[..WordLen(z)]] + Words(z[WordLen(z)..]);
  }

  lemma WordsSplitFirst(y: string)
    requires y != [] && !IsSpace(y[0])
    ensures Words(y) == [y[..WordLen(y)]] + Words(y[WordLen(y)..])
  {
  }

  lemma {:induction false} CollapseMatchesWords(y: string)
    requires y == [] || !IsSpace(y[0])
    ensures StripRight(CollapseSpaces(y)) == Join(Words(y))
    decreases |y|
  {
    if y != [] {
      var n := WordLen(y);
      var w, rest := y[..n], y[n..];
      assert CollapseSpaces(y) == w + CollapseSpaces(rest) by {
        CollapseWordPrefix(y, n);
      }
      assert Words(y) == [w] + Words(rest) by {
        WordsSplitFirst(y);
      }
      var z := DropSpaces(rest);
      if z == [] {
        assert Words(rest) == [] by {
          WordsSkipSpaces(rest);
        }
        assert StripRight(w + CollapseSpaces(rest)) == w by {
          CollapseLastWord(w, rest);
        }
      } else {
        CollapseMatchesWords(z);
        CollapseBetweenWords(w, rest, z);
      }
    }
  }

  /** One inductive step: a word, a whitespace gap, and the rest of the string. */
  lemma CollapseBetweenWords(w: string, rest: string, z: string)
    requires w != [] && !IsSpace(w[|w| - 1])
    requires z == DropSpaces(rest) && z != []
    requires rest != [] && IsSpace(rest[0])
    requires StripRight(CollapseSpaces(z)) == Join(Words(z))
    ensures StripRight(w + CollapseSpaces(rest)) == Join([w] + Words(rest))
  {
    CollapseGap(rest);
    StripAfterWord(w, z);
    JoinAfterWord(w, rest, z);
  }

  /** Stripping a word, one space and the collapsed rest strips only the rest. */
  lemma StripAfterWord(w: string, z: string)
    requires z != [] && !IsSpace(z[0])
    requires StripRight(CollapseSpaces(z)) == Join(Words(z))
    ensures StripRight(w + (" " + CollapseSpaces(z))) == w + (" " + Join(Words(z)))
  {
    var cz := CollapseSpaces(z);
    WordsOfClean(z);
    StripRightAppend(w + " ", cz);
    assert w + (" " + cz) == (w + " ") + cz;
    assert w + (" " + Join(Words(z))) == (w + " ") + Join(Words(z));
  }

  /** The words of a word followed by a whitespace gap and z, joined. */
  lemma JoinAfterWord(w: string, rest: string, z: string)
    requires z == DropSpaces(rest) && z != []
    ensures Join([w] + Words(rest)) == w + (" " + Join(Words(z)))
  {
    var wz := Words(z);
    calc {
      Join([w] + Words(rest));
      { WordsSkipSpaces(rest); }
      Join([w] + wz);
      { WordsOfClean(z); JoinCons(w, wz); }
      w + " " + Join(wz);
      w + (" " + Join(wz));
    }
  }

  lemma JoinCons(w: string, ws: seq<string>)
    requires ws != []
    ensures Join([w] + ws) == w + " " + Join(ws)
  {
    assert ([w] + ws)[1..] == ws;
  }

  /** Collapsing whitespace runs to one space and stripping the ends is the same as
      splitting on whitespace and joining with one space. */
  lemma CollapseStripIsSplitJoin(x: string)
    ensures Strip(CollapseSpaces(x)) == Join(Words(x))
  {
    DropSpacesCollapse(x);
    CollapseMatchesWords(DropSpaces(x));
    WordsSkipSpaces(x);
  }

  /** s[..j] + s[j+1..]: s with the character at index j removed. */
  function RemoveAt(s: string, j: nat): (r: string)
    requires j < |s|
    ensures |r| == |s| - 1
  {
    s[..j] + s[j + 1..]
  }

  /** The indices below n at which a and b differ, in increasing order
      (the comprehension [i for i in range(n) if a[i] != b[i]]). */
  function Diffs(a: string, b: string, n: nat): (d: seq<nat>)
    requires n <= |a| && n <= |b|
    ensures forall i: nat {:trigger i in d} :: i in d <==> i < n && a[i] != b[i]
    ensures forall k, l :: 0 <= k < l < |d| ==> d[k] < d[l]
  {
    if n == 0 then []
    else
      var d := Diffs(a, b, n - 1);
      assert forall k :: 0 <= k < |d| ==> d[k] < n - 1 by {
        forall k | 0 <= k < |d| ensures d[k] < n - 1 { assert d[k] in d; }
      }
      d + (if a[n - 1] != b[n - 1] then [n - 1] else [])
  }
  /** One more index compared: the list grows by that index exactly when it differs. */
  lemma DiffsStep(a: string, b: string, n: nat)
    requires n < |a| && n < |b|
    ensures Diffs(a, b, n + 1) == Diffs(a, b, n) + (if a[n] != b[n] then [n] else [])
  {
  }


  /** p occurs in s starting at index k. */
  predicate OccursAt(s: string, p: string, k: int) {
    0 <= k && k + |p| <= |s| && s[k..k + |p|] == p
  }

  /** Python's `p in s` on strings: p occurs in s as a contiguous block. */
  function Contains(s: string, p: string): (b: bool)
    ensures b <==> exists k :: OccursAt(s, p, k)
    decreases |s|
  {
    if |p| <= |s| && s[..|p|] == p then
      assert OccursAt(s, p, 0);
      true
    else if s == [] then false
    else
      var b := Contains(s[1..], p);
      OccursShift(s, p);
      assert b ==> exists k :: OccursAt(s, p, k) by {
        if b {
          var k :| OccursAt(s[1..], p, k);
          assert OccursAt(s, p, k + 1);
        }
      }
      assert (exists k :: OccursAt(s, p, k)) ==> b by {
        if k :| OccursAt(s, p, k) {
          assert k != 0;
          assert OccursAt(s[1..], p, k - 1);
        }
      }
      b
  }

  /** p occurs in s[1..] at k >= 0 exactly when it occurs in s at k + 1. */
  lemma OccursShift(s: string, p: string)
    requires s != []
    ensures forall k :: 0 <= k ==> (OccursAt(s[1..], p, k) <==> OccursAt(s, p, k + 1))
  {
    forall k | 0 <= k ensures OccursAt(s[1..], p, k) <==> OccursAt(s, p, k + 1) {
      if 0 <= k && k + |p| <= |s| - 1 {
        assert s[1..][k..k + |p|] == s[k + 1..k + 1 + |p|];
      }
    }
  }

  /** Python's `a <= b` on str: lexicographic order by code point. */
  predicate LexLe(a: string, b: string) {
    a == [] || (b != [] && (a[0] < b[0] || (a[0] == b[0] && LexLe(a[1..], b[1..]))))
  }

  lemma {:induction false} LexLeTotal(a: string, b: string)
    ensures LexLe(a, b) || LexLe(b, a)
  {
    if a != [] && b != [] && a[0] == b[0] {
      LexLeTotal(a[1..], b[1..]);
    }
  }

  lemma {:induction false} LexLeTransitive(a: string, b: string, c: string)
    requires LexLe(a, b) && LexLe(b, c)
    ensures LexLe(a, c)
  {
    if a != [] && a[0] == b[0] && b[0] == c[0] {
      LexLeTransitive(a[1..], b[1..], c[1..]);
    }
  }
}
