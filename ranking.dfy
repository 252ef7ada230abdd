/** The suggestion record both engines return, and the order they rank suggestions in:
    score descending, then the completed sentence ascending. Engine A compares the
    lower-cased sentence (`caseless`), engine B the sentence as written. */
module Ranking {
  import opened Text

  function Min(a: int, b: int): int {
    if a <= b then a else b
  }

  /** The AutoCompleteData dataclass. */
  datatype AutoCompleteData = AutoCompleteData(completedSentence: string, sourceText: string, offset: int, score: int)

  /** The tie-break part of the sort key. */
  function TieKey(x: AutoCompleteData, caseless: bool): string {
    if caseless then LowerStr(x.completedSentence) else x.completedSentence
  }

  /** a's sort key (-score, tie key) is <= b's. */
  predicate RankLe(a: AutoCompleteData, b: AutoCompleteData, caseless: bool) {
    a.score > b.score || (a.score == b.score && LexLe(TieKey(a, caseless), TieKey(b, caseless)))
  }

  lemma RankLeTotal(a: AutoCompleteData, b: AutoCompleteData, caseless: bool)
    ensures RankLe(a, b, caseless) || RankLe(b, a, caseless)
  {
    LexLeTotal(TieKey(a, caseless), TieKey(b, caseless));
  }

  lemma RankLeTransitive(a: AutoCompleteData, b: AutoCompleteData, c: AutoCompleteData, caseless: bool)
    requires RankLe(a, b, caseless) && RankLe(b, c, caseless)
    ensures RankLe(a, c, caseless)
  {
    if a.score == b.score == c.score {
      LexLeTransitive(TieKey(a, caseless), TieKey(b, caseless), TieKey(c, caseless));
    }
  }

  ghost predicate Sorted(s: seq<AutoCompleteData>, caseless: bool) {
    forall i, j :: 0 <= i < j < |s| ==> RankLe(s[i], s[j], caseless)
  }

  /** Insert x after every element that ranks no lower, so that equal keys keep their order. */
  function InsertByRank(x: AutoCompleteData, s: seq<AutoCompleteData>, caseless: bool): (r: seq<AutoCompleteData>)
    requires Sorted(s, caseless)
    ensures Sorted(r, caseless)
    ensures multiset(r) == multiset(s) + multiset{x}
  {
    if s == [] then [x]
    else if !RankLe(s[0], x, caseless) then
      RankLeTotal(s[0], x, caseless);
      forall j | 0 <= j < |s| ensures RankLe(x, s[j], caseless) {
        if j > 0 { RankLeTransitive(x, s[0], s[j], caseless); }
      }
      [x] + s
    else
      var t := InsertByRank(x, s[1..], caseless);
      assert s == [s[0]] + s[1..];
      forall j | 0 <= j < |t| ensures RankLe(s[0], t[j], caseless) {
        assert t[j] in multiset(t);
        if t[j] != x {
          assert t[j] in multiset(s[1..]);
          var k :| 0 <= k < |s[1..]| && s[1..][k] == t[j];
        }
      }
      [s[0]] + t
  }

  /** list.sort(key=lambda x: (-x.score, tie key)): a stable insertion sort. */
  function SortByRank(s: seq<AutoCompleteData>, caseless: bool): (r: seq<AutoCompleteData>)
    ensures Sorted(r, caseless)
    ensures multiset(r) == multiset(s)
  {
    if s == [] then []
    else
      assert s == s[..|s| - 1] + [s[|s| - 1]];
      InsertByRank(s[|s| - 1], SortByRank(s[..|s| - 1], caseless), caseless)
  }

  /** The first k entries of a sorted list rank no lower than any entry cut off. */
  lemma SortedPrefixIsTop(s: seq<AutoCompleteData>, k: nat, caseless: bool)
    requires Sorted(s, caseless) && 0 < k <= |s|
    ensures forall x :: x in multiset(s) - multiset(s[..k]) ==> RankLe(s[k - 1], x, caseless)
  {
    assert s == s[..k] + s[k..];
    forall x | x in multiset(s) - multiset(s[..k]) ensures RankLe(s[k - 1], x, caseless) {
      assert x in multiset(s[k..]);
      var j :| 0 <= j < |s[k..]| && s[k..][j] == x;
      if j > 0 {
        assert s[k - 1] == s[k - 1] && s[k + j] == x;
      } else {
        assert s[k] == x;
      }
    }
  }
}
