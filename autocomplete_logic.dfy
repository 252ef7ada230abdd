/** Engine B (autocomplete_logic.py): scoring a match, finding the best match of a prefix in
    a sentence (exact, or one substitution, deletion or addition inside some window), and the
    query that scores every sentence stored in the trie and keeps the five best. */
module AutoCompleteLogic {
  import opened Text
  import opened Options
  import opened Ranking
  import opened Initialize
  import AutoComplete

  // ---------------------------------------------------------------------------
  // calculate_score
  // ---------------------------------------------------------------------------

  /** calculate_score: twice the matched length, less a penalty that depends on the kind of
      correction (1 replacement, 2 addition, 3 deletion, anything else none) and shrinks as
      its 1-based position moves right; positions from 5 on, and below 1, cost the least. */
  function CalculateScore(matchedLength: int, correctionType: int, correctionPosition: int): (score: int)
    ensures correctionType == 1 ==> 2 * matchedLength - 5 <= score <= 2 * matchedLength - 1
    ensures correctionType == 2 || correctionType == 3 ==> 2 * matchedLength - 10 <= score <= 2 * matchedLength - 2
    ensures correctionType != 1 && correctionType != 2 && correctionType != 3 ==> score == 2 * matchedLength
  {
    var baseScore := matchedLength * 2;
    if correctionType == 1 then
      if correctionPosition == 1 then baseScore - 5
      else if correctionPosition == 2 then baseScore - 4
      else if correctionPosition == 3 then baseScore - 3
      else if correctionPosition == 4 then baseScore - 2
      else baseScore - 1
    else if correctionType == 2 || correctionType == 3 then
      if correctionPosition == 1 then baseScore - 10
      else if correctionPosition == 2 then baseScore - 8
      else if correctionPosition == 3 then baseScore - 6
      else if correctionPosition == 4 then baseScore - 4
      else baseScore - 2
    else baseScore
  }

  /** The two engines' penalty tables agree: for every position from 0 on, engine B's
      penalties are engine A's penalty_for. */
  lemma PenaltiesAgree(matchedLength: int, pos: int)
    requires pos >= 0
    ensures CalculateScore(matchedLength, 1, pos) == 2 * matchedLength - AutoComplete.PenaltyFor(AutoComplete.Substitution, pos)
    ensures CalculateScore(matchedLength, 2, pos) == 2 * matchedLength - AutoComplete.PenaltyFor(AutoComplete.Insertion, pos)
    ensures CalculateScore(matchedLength, 3, pos) == 2 * matchedLength - AutoComplete.PenaltyFor(AutoComplete.Deletion, pos)
  {
  }

  /** A correction further right costs no more, and an addition or deletion costs exactly
      twice a replacement at the same position. */
  lemma LaterCorrectionsCostLess(matchedLength: int, kind: int, pos: int, pos': int)
    requires 1 <= pos <= pos' && 1 <= kind <= 3
    ensures CalculateScore(matchedLength, kind, pos) <= CalculateScore(matchedLength, kind, pos')
    ensures 2 * matchedLength - CalculateScore(matchedLength, 2, pos) == 2 * (2 * matchedLength - CalculateScore(matchedLength, 1, pos))
    ensures CalculateScore(matchedLength, 3, pos) == CalculateScore(matchedLength, 2, pos)
  {
  }

  // ---------------------------------------------------------------------------
  // find_best_match
  // ---------------------------------------------------------------------------

  /** (correction_type, correction_position): 0 for a direct match at position 0,
      1 replacement, 2 addition, 3 deletion, with the 1-based position of the correction. */
  datatype Correction = Correction(kind: int, pos: int)

  /** The first j at or after `from` for which removing x[j] leaves y: the deletion loop tries
      the prefix without each character against the window, the addition loop the window
      without each character against the prefix. */
  function FirstRemoval(x: string, y: string, from: nat): (r: Option<nat>)
    ensures r.Some? ==> from <= r.value < |x| && RemoveAt(x, r.value) == y
    ensures r.Some? ==> forall k :: from <= k < r.value ==> RemoveAt(x, k) != y
    ensures r.None? ==> forall k :: from <= k < |x| ==> RemoveAt(x, k) != y
    decreases |x| - from
  {
    if from >= |x| then None
    else if RemoveAt(x, from) == y then Some(from)
    else FirstRemoval(x, y, from + 1)
  }

  /** The window of s of length n starting at i. */
  function Window(s: string, i: nat, n: int): string
    requires 0 <= n && i + n <= |s|
  {
    s[i..i + n]
  }

  /** w is p with one character replaced. */
  ghost predicate Replaced(p: string, w: string) {
    exists k :: AutoComplete.IsSubstitutionAt(p, w, k)
  }

  /** w is p with one character deleted, and k is the first index of p whose removal gives w. */
  ghost predicate FirstDeletion(p: string, w: string, k: int) {
    AutoComplete.IsDeletionAt(p, w, k) && forall j :: 0 <= j < k ==> !AutoComplete.IsDeletionAt(p, w, j)
  }

  ghost predicate Deleted(p: string, w: string) {
    exists k :: AutoComplete.IsDeletionAt(p, w, k)
  }

  /** w is p with one character added, and k is the first index of w whose removal gives p. */
  ghost predicate FirstAddition(p: string, w: string, k: int) {
    AutoComplete.IsInsertionAt(p, w, k) && forall j :: 0 <= j < k ==> !AutoComplete.IsInsertionAt(p, w, j)
  }

  ghost predicate Added(p: string, w: string) {
    exists k :: AutoComplete.IsInsertionAt(p, w, k)
  }

  /** The replacement test on a window as long as the prefix: exactly one character
      differs, at the 1-based position returned. */
  function ReplacementIn(p: string, w: string): (r: Option<int>)
    requires |p| == |w|
    ensures r.Some? <==> Replaced(p, w)
    ensures r.Some? ==> AutoComplete.IsSubstitutionAt(p, w, r.value - 1)
  {
    var d := Diffs(p, w, |p|);
    if |d| == 1 then
      var k := d[0];
      assert k in d;
      forall j | 0 <= j < |p| && j != k ensures p[j] == w[j] {
        assert j !in d;
      }
      assert AutoComplete.IsSubstitutionAt(p, w, k);
      Some(k + 1)
    else
      assert !Replaced(p, w) by {
        forall k | AutoComplete.IsSubstitutionAt(p, w, k) ensures false {
          AutoComplete.DiffsAtOnlyIndex(p, w, |p|, k);
        }
      }
      None
  }

  /** The deletion test on a window one shorter than the prefix: the 1-based position of
      the first character of the prefix whose removal gives the window. */
  function DeletionIn(p: string, w: string): (r: Option<int>)
    requires |p| == |w| + 1
    ensures r.Some? <==> Deleted(p, w)
    ensures r.Some? ==> FirstDeletion(p, w, r.value - 1)
  {
    match FirstRemoval(p, w, 0)
    case None => None
    case Some(j) =>
      assert AutoComplete.IsDeletionAt(p, w, j);
      Some(j + 1)
  }

  /** The addition test on a window one longer than the prefix: the 1-based position of the
      first character of the window whose removal gives the prefix. */
  function AdditionIn(p: string, w: string): (r: Option<int>)
    requires |w| == |p| + 1
    ensures r.Some? <==> Added(p, w)
    ensures r.Some? ==> FirstAddition(p, w, r.value - 1)
  {
    match FirstRemoval(w, p, 0)
    case None => None
    case Some(j) =>
      assert AutoComplete.IsInsertionAt(p, w, j);
      Some(j + 1)
  }

  /** The replacement test of round i, where a window as long as the prefix fits. */
  function ReplacementAt(s: string, p: string, i: nat): Option<int> {
    if i + |p| <= |s| then ReplacementIn(p, Window(s, i, |p|)) else None
  }

  /** The deletion test of round i, where a window one shorter than the prefix fits. */
  function DeletionAt(s: string, p: string, i: nat): Option<int> {
    if i + |p| - 1 <= |s| && |p| > 0 then DeletionIn(p, Window(s, i, |p| - 1)) else None
  }

  /** The addition test of round i, where a window one longer than the prefix fits. */
  function AdditionAt(s: string, p: string, i: nat): Option<int> {
    if i + |p| + 1 <= |s| then AdditionIn(p, Window(s, i, |p| + 1)) else None
  }

  /** What round i of the loop over the sentence returns, if anything: the replacement test,
      then the deletion test, then the addition test. */
  function MatchAt(s: string, p: string, i: nat): Option<Correction> {
    if ReplacementAt(s, p, i).Some? then Some(Correction(1, ReplacementAt(s, p, i).value))
    else if DeletionAt(s, p, i).Some? then Some(Correction(3, DeletionAt(s, p, i).value))
    else if AdditionAt(s, p, i).Some? then Some(Correction(2, AdditionAt(s, p, i).value))
    else None
  }

  /** The single edit a correction names, read in the window starting at i. */
  ghost predicate Explains(s: string, p: string, i: nat, c: Correction) {
    if c.kind == 1 then
      i + |p| <= |s| && AutoComplete.IsSubstitutionAt(p, Window(s, i, |p|), c.pos - 1)
    else if c.kind == 3 then
      |p| > 0 && i + |p| - 1 <= |s| && FirstDeletion(p, Window(s, i, |p| - 1), c.pos - 1)
    else if c.kind == 2 then
      i + |p| + 1 <= |s| && FirstAddition(p, Window(s, i, |p| + 1), c.pos - 1)
    else false
  }

  /** Some window starting at i is the prefix with one character replaced, deleted or added. */
  ghost predicate EditAt(s: string, p: string, i: nat) {
    || (i + |p| <= |s| && Replaced(p, Window(s, i, |p|)))
    || (|p| > 0 && i + |p| - 1 <= |s| && Deleted(p, Window(s, i, |p| - 1)))
    || (i + |p| + 1 <= |s| && Added(p, Window(s, i, |p| + 1)))
  }

  /** A round returns exactly when some window at i is one edit away, and what it returns is
      that edit: a replacement before a deletion before an addition, and the first position
      of a deletion or an addition. */
  lemma MatchAtMeaning(s: string, p: string, i: nat)
    ensures MatchAt(s, p, i).Some? <==> EditAt(s, p, i)
    ensures MatchAt(s, p, i).Some? ==> Explains(s, p, i, MatchAt(s, p, i).value) && MatchAt(s, p, i).value.pos >= 1
    ensures MatchAt(s, p, i).Some? && MatchAt(s, p, i).value.kind != 1 ==>
      !(i + |p| <= |s| && Replaced(p, Window(s, i, |p|)))
    ensures MatchAt(s, p, i).Some? && MatchAt(s, p, i).value.kind == 2 ==>
      !(|p| > 0 && i + |p| - 1 <= |s| && Deleted(p, Window(s, i, |p| - 1)))
  {
  }

  /** No round from i up to k returns. */
  ghost predicate FirstRound(s: string, p: string, i: nat, k: nat) {
    forall j :: i <= j < k ==> MatchAt(s, p, j).None?
  }

  /** The rounds from i on: the first round that returns decides. */
  function ScanFrom(s: string, p: string, i: nat): (r: Option<Correction>)
    ensures r.None? <==> forall k :: i <= k < |s| ==> MatchAt(s, p, k).None?
    ensures r.Some? ==> exists k :: i <= k < |s| && r == MatchAt(s, p, k) && FirstRound(s, p, i, k)
    decreases |s| - i
  {
    if i >= |s| then None
    else if MatchAt(s, p, i).Some? then MatchAt(s, p, i)
    else
      var r := ScanFrom(s, p, i + 1);
      assert r.Some? ==> exists k :: i <= k < |s| && r == MatchAt(s, p, k) && FirstRound(s, p, i, k) by {
        if r.Some? {
          var k :| i + 1 <= k < |s| && r == MatchAt(s, p, k) && FirstRound(s, p, i + 1, k);
          assert FirstRound(s, p, i, k);
        }
      }
      r
  }

  /** find_best_match, as a specification: a direct match first, then the rounds over the
      sentence from its first character. */
  function BestMatch(s: string, p: string): Option<Correction> {
    if Contains(s, p) then Some(Correction(0, 0)) else ScanFrom(s, p, 0)
  }

  /** find_best_match returns (0, 0) exactly when the prefix occurs in the sentence. */
  lemma BestMatchDirect(s: string, p: string)
    ensures BestMatch(s, p) == Some(Correction(0, 0)) <==> Contains(s, p)
  {
    var r := ScanFrom(s, p, 0);
    if r.Some? {
      var k :| 0 <= k < |s| && r == MatchAt(s, p, k);
      MatchAtMeaning(s, p, k);
    }
  }

  ghost predicate NoEditBefore(s: string, p: string, i: nat) {
    forall j :: 0 <= j < i ==> !EditAt(s, p, j)
  }

  /** Every other answer names a real single edit in some window, and no earlier window
      holds one. */
  lemma BestMatchSound(s: string, p: string)
    requires BestMatch(s, p).Some? && BestMatch(s, p) != Some(Correction(0, 0))
    ensures exists i :: 0 <= i < |s| && Explains(s, p, i, BestMatch(s, p).value) && NoEditBefore(s, p, i)
  {
    var k :| 0 <= k < |s| && ScanFrom(s, p, 0) == MatchAt(s, p, k) && FirstRound(s, p, 0, k);
    MatchAtMeaning(s, p, k);
    forall j | 0 <= j < k ensures !EditAt(s, p, j) {
      MatchAtMeaning(s, p, j);
    }
  }

  /** find_best_match gives None exactly when the prefix neither occurs in the sentence nor is
      one edit away from any window starting inside it. */
  lemma BestMatchNone(s: string, p: string)
    ensures BestMatch(s, p).None? <==> !Contains(s, p) && forall i :: 0 <= i < |s| ==> !EditAt(s, p, i)
  {
    forall i | 0 <= i < |s| ensures MatchAt(s, p, i).None? <==> !EditAt(s, p, i) {
      MatchAtMeaning(s, p, i);
    }
  }

  /** The empty prefix occurs in every sentence. */
  lemma EmptyPrefixMatchesDirectly(s: string)
    ensures BestMatch(s, []) == Some(Correction(0, 0))
  {
    assert OccursAt(s, [], 0);
  }

  /** The replacement loop over one window: count the differing characters and remember the
      1-based position of the last one. */
  method CountDiffs(p: string, w: string) returns (diffCount: nat, diffPos: int)
    requires |p| <= |w|
    ensures diffCount == |Diffs(p, w, |p|)|
    ensures diffCount == 0 ==> diffPos == -1
    ensures diffCount > 0 ==> diffPos == Diffs(p, w, |p|)[diffCount - 1] + 1
  {
    diffCount, diffPos := 0, -1;
    for j := 0 to |p|
      invariant diffCount == |Diffs(p, w, j)|
      invariant diffCount == 0 ==> diffPos == -1
      invariant diffCount > 0 ==> diffPos == Diffs(p, w, j)[diffCount - 1] + 1
    {
      DiffsStep(p, w, j);
      if p[j] != w[j] {
        diffCount := diffCount + 1;
        diffPos := j + 1;
        assert Diffs(p, w, j + 1)[diffCount - 1] == j;
      }
    }
  }

  /** The deletion and addition loops: try removing each character of x in turn, and stop at
      the first removal that leaves y. */
  method FindRemoval(x: string, y: string) returns (r: Option<nat>)
    ensures r == FirstRemoval(x, y, 0)
  {
    for j := 0 to |x|
      invariant FirstRemoval(x, y, 0) == FirstRemoval(x, y, j)
    {
      if x[..j] + x[j + 1..] == y {
        return Some(j);
      }
    }
    return None;
  }

  /** One round i of find_best_match's loop: the replacement, deletion and addition tests on
      the windows starting at i, in that order. */
  method TryWindows(s: string, p: string, i: nat) returns (r: Option<Correction>)
    ensures r == MatchAt(s, p, i)
  {
    if i + |p| <= |s| {
      var window := s[i..i + |p|];
      assert window == Window(s, i, |p|);
      var diffCount, diffPos := CountDiffs(p, window);
      if diffCount == 1 {
        assert ReplacementAt(s, p, i) == Some(diffPos);
        return Some(Correction(1, diffPos));
      }
    }
    assert ReplacementAt(s, p, i).None?;
    if i + |p| - 1 <= |s| && |p| > 0 {
      var window := s[i..i + |p| - 1];
      assert window == Window(s, i, |p| - 1);
      var j := FindRemoval(p, window);
      if j.Some? {
        assert DeletionAt(s, p, i) == Some(j.value + 1);
        return Some(Correction(3, j.value + 1));
      }
    }
    assert DeletionAt(s, p, i).None?;
    if i + |p| + 1 <= |s| {
      var window := s[i..i + |p| + 1];
      assert window == Window(s, i, |p| + 1);
      var j := FindRemoval(window, p);
      if j.Some? {
        assert AdditionAt(s, p, i) == Some(j.value + 1);
        return Some(Correction(2, j.value + 1));
      }
    }
    assert AdditionAt(s, p, i).None?;
    return None;
  }

  /** find_best_match */
  method FindBestMatch(s: string, p: string) returns (r: Option<Correction>)
    ensures r == BestMatch(s, p)
  {
    if Contains(s, p) {
      return Some(Correction(0, 0));
    }
    for i := 0 to |s|
      invariant ScanFrom(s, p, 0) == ScanFrom(s, p, i)
    {
      r := TryWindows(s, p, i);
      if r.Some? {
        return r;
      }
    }
    return None;
  }

  // ---------------------------------------------------------------------------
  // get_best_k_completions
  // ---------------------------------------------------------------------------

  /** The suggestion one stored completion yields for the normalized prefix np, if its
      sentence matches: a deletion is scored on one character less. */
  function Scored(data: AutoCompleteData, np: string): Option<AutoCompleteData> {
    match BestMatch(NormalizeText(data.completedSentence), np)
    case None => None
    case Some(c) =>
      var matchedLength := if c.kind == 3 then |np| - 1 else |np|;
      Some(AutoCompleteData(data.completedSentence, data.sourceText, data.offset,
                            CalculateScore(matchedLength, c.kind, c.pos)))
  }

  /** The list the query's loop builds: one suggestion per matching completion, in order. */
  function ScoreAll(all: seq<AutoCompleteData>, np: string): seq<AutoCompleteData> {
    FilterMap(all, np, Scored)
  }

  /** A suggestion keeps its completion's sentence, file and line, and scores the full
      2 * len(prefix) exactly when the prefix occurs in the normalized sentence; otherwise
      between 2 * len(prefix) - 12 and 2 * len(prefix) - 1. */
  lemma ScoredMeaning(data: AutoCompleteData, np: string)
    requires Scored(data, np).Some?
    ensures var x := Scored(data, np).value;
      x.completedSentence == data.completedSentence && x.sourceText == data.sourceText && x.offset == data.offset
      && (x.score == 2 * |np| <==> Contains(NormalizeText(data.completedSentence), np))
      && 2 * |np| - 12 <= x.score <= 2 * |np|
  {
    var s := NormalizeText(data.completedSentence);
    BestMatchDirect(s, np);
    if !Contains(s, np) {
      var k :| 0 <= k < |s| && ScanFrom(s, np, 0) == MatchAt(s, np, k);
      MatchAtMeaning(s, np, k);
    }
  }

  /** Exactly the completions whose sentence the matcher accepts yield a suggestion. */
  lemma ScoredAccepts(data: AutoCompleteData, np: string)
    ensures Scored(data, np).Some? <==> BestMatch(NormalizeText(data.completedSentence), np).Some?
    ensures Scored(data, np).None? <==>
      !Contains(NormalizeText(data.completedSentence), np)
      && forall i :: 0 <= i < |NormalizeText(data.completedSentence)| ==> !EditAt(NormalizeText(data.completedSentence), np, i)
  {
    BestMatchNone(NormalizeText(data.completedSentence), np);
  }

  /** The suggestions, as a multiset, do not depend on the order the completions come in. */
  lemma ScoreAllPermutation(a: seq<AutoCompleteData>, b: seq<AutoCompleteData>, np: string)
    requires multiset(a) == multiset(b)
    ensures multiset(ScoreAll(a, np)) == multiset(ScoreAll(b, np))
  {
    FilterMapPermutation(a, b, np, Scored);
  }

  /** With an empty prefix every stored completion is kept, with score 0. */
  lemma EmptyPrefixKeepsAll(all: seq<AutoCompleteData>)
    requires forall i :: 0 <= i < |all| ==> all[i].score == 0
    ensures ScoreAll(all, []) == all
  {
    forall i | 0 <= i < |all| ensures Scored(all[i], []) == Some(all[i]) {
      EmptyPrefixKeepsOne(all[i]);
    }
    FilterMapKeepsAll(all, [], Scored);
  }

  lemma EmptyPrefixKeepsOne(data: AutoCompleteData)
    requires data.score == 0
    ensures Scored(data, []) == Some(data)
  {
    var c := BestMatch(NormalizeText(data.completedSentence), []);
    EmptyPrefixMatchesDirectly(NormalizeText(data.completedSentence));
    assert c == Some(Correction(0, 0));
    assert CalculateScore(0, c.value.kind, c.value.pos) == 0;
  }

  /** An empty query keeps every stored completion, duplicates included: the whole
      trie is scored and nothing is merged. */
  lemma EmptyQueryKeepsEverything(trie: Trie)
    requires trie.Valid()
    ensures ScoreAll(AllData(trie.entries), NormalizeText([])) == AllData(trie.entries)
  {
    assert NormalizeText([]) == [];
    var all := AllData(trie.entries);
    forall i | 0 <= i < |all| ensures all[i].score == 0 {
      assert trie.entries[i] in trie.entries;
    }
    EmptyPrefixKeepsAll(all);
  }

  /** The first five of the suggestions in rank order are the five best: in rank order,
      taken from the suggestions, and ranked no lower than any suggestion left out. */
  lemma TopFive(completions: seq<AutoCompleteData>, sorted: seq<AutoCompleteData>, out: seq<AutoCompleteData>)
    requires Sorted(sorted, false) && multiset(sorted) == multiset(completions)
    requires out == sorted[..Min(5, |sorted|)]
    ensures |out| == Min(5, |completions|)
    ensures Sorted(out, false)
    ensures multiset(out) <= multiset(completions)
    ensures out != [] ==> forall x :: x in multiset(completions) - multiset(out) ==> RankLe(out[|out| - 1], x, false)
  {
    assert |sorted| == |multiset(sorted)| == |completions|;
    assert sorted == out + sorted[|out|..];
    if out != [] {
      SortedPrefixIsTop(sorted, |out|, false);
    }
  }

  /** The body of get_best_k_completions' loop for one stored completion: match its
      normalized sentence and, on a match, score it. */
  method ScoreCompletion(data: AutoCompleteData, np: string) returns (r: Option<AutoCompleteData>)
    ensures r == Scored(data, np)
  {
    var matchInfo := FindBestMatch(NormalizeText(data.completedSentence), np);
    if matchInfo.None? {
      return None;
    }
    var c := matchInfo.value;
    var matchedLength := |np|;
    if c.kind == 3 {
      matchedLength := matchedLength - 1;
    }
    var score := CalculateScore(matchedLength, c.kind, c.pos);
    return Some(AutoCompleteData(data.completedSentence, data.sourceText, data.offset, score));
  }

  /** The loop of get_best_k_completions over every stored completion. */
  method ScoreCompletions(all: seq<AutoCompleteData>, np: string) returns (completions: seq<AutoCompleteData>)
    ensures completions == ScoreAll(all, np)
  {
    completions := [];
    for k := 0 to |all|
      invariant completions == FilterMap(all[..k], np, Scored)
    {
      var r := ScoreCompletion(all[k], np);
      FilterMapStep(all, k, np, Scored, completions, r);
      if r.Some? {
        completions := completions + [r.value];
      }
    }
    assert all[..|all|] == all;
  }

  /** Score, sort and cut: the five best of the scored completions, in rank order. */
  method RankScored(all: seq<AutoCompleteData>, np: string) returns (out: seq<AutoCompleteData>)
    ensures |out| == Min(5, |ScoreAll(all, np)|)
    ensures Sorted(out, false)
    ensures multiset(out) <= multiset(ScoreAll(all, np))
    ensures out != [] ==> forall x :: x in multiset(ScoreAll(all, np)) - multiset(out) ==>
      RankLe(out[|out| - 1], x, false)
    ensures forall x :: x in out ==> exists d :: d in all && Scored(d, np) == Some(x)
  {
    var completions := ScoreCompletions(all, np);
    var sorted := SortByRank(completions, false);
    out := sorted[..Min(5, |sorted|)];
    TopFive(completions, sorted, out);
    ScoredFrom(out, all, np);
  }

  /** Every completion drawn from the scored list is the scored copy of a completion of all
      that find_best_match accepts. */
  lemma ScoredFrom(out: seq<AutoCompleteData>, all: seq<AutoCompleteData>, np: string)
    requires multiset(out) <= multiset(ScoreAll(all, np))
    ensures forall x :: x in out ==> exists d :: d in all && Scored(d, np) == Some(x)
  {
    forall x | x in out ensures exists d :: d in all && Scored(d, np) == Some(x) {
      assert x in multiset(ScoreAll(all, np));
      FilterMapIn(all, np, Scored, x);
    }
  }

  /** get_best_k_completions: score every completion stored in the trie against the
      normalized prefix and keep the five best, duplicates included. */
  method GetBestKCompletions(trie: Trie, prefix: string) returns (out: seq<AutoCompleteData>)
    requires trie.Valid()
    ensures |out| == Min(5, |ScoreAll(AllData(trie.entries), NormalizeText(prefix))|)
    ensures Sorted(out, false)
    ensures multiset(out) <= multiset(ScoreAll(AllData(trie.entries), NormalizeText(prefix)))
    ensures out != [] ==> forall x :: x in multiset(ScoreAll(AllData(trie.entries), NormalizeText(prefix))) - multiset(out) ==>
      RankLe(out[|out| - 1], x, false)
    ensures forall x :: x in out ==> exists d :: d in AllData(trie.entries) && Scored(d, NormalizeText(prefix)) == Some(x)
  {
    var np := NormalizeText(prefix);
    var all := trie.SearchForCompletions([]);
    DataUnderEmpty(trie.entries);
    out := RankScored(all, np);
    ScoreAllPermutation(all, AllData(trie.entries), np);
    assert |ScoreAll(all, np)| == |multiset(ScoreAll(all, np))| == |ScoreAll(AllData(trie.entries), np)|;
    ScoredFrom(out, AllData(trie.entries), np);
  }
}
