/** Engine A (autocomplete.py): the pure helpers — text normalization, the edit
    penalty table, and the single-edit classifier used to compare a query prefix
    with a window of a sentence. */
module AutoComplete {
  import opened Text
  import opened Options

  /** normalize_text: drop punctuation, lower-case, split on whitespace and join with one space. */
  function NormalizeText(s: string): (t: string)
    ensures IsNormal(t)
  {
    var cleaned := LowerStr(RemovePunct(s));
    var ws := Words(cleaned);
    WordsMeaning(cleaned);
    assert forall w :: w in ws ==> CleanWord(w) by {
      forall w | w in ws ensures CleanWord(w) {
        forall c | c in w ensures !IsPunct(c) && !IsUpper(c) && !IsSpace(c) {
          var i :| 0 <= i < |cleaned| && cleaned[i] == c;
          assert RemovePunct(s)[i] in RemovePunct(s);
        }
      }
    }
    JoinIsNormal(ws);
    Join(ws)
  }

  lemma LowerStrOfLower(t: string)
    requires forall i :: 0 <= i < |t| ==> !IsUpper(t[i])
    ensures LowerStr(t) == t
  {
  }

  /** A normalized string is its own normal form. */
  lemma NormalizeFixesNormal(t: string)
    requires IsNormal(t)
    ensures NormalizeText(t) == t
  {
    assert forall c :: c in t ==> !IsPunct(c);
    assert RemovePunct(t) == t;
    LowerStrOfLower(t);
    JoinWordsOfNormal(t);
  }

  /** normalize_text is idempotent. */
  lemma NormalizeIdempotent(s: string)
    ensures NormalizeText(NormalizeText(s)) == NormalizeText(s)
  {
    NormalizeFixesNormal(NormalizeText(s));
  }

  lemma {:induction false} RemovePunctLower(s: string)
    ensures RemovePunct(LowerStr(s)) == LowerStr(RemovePunct(s))
  {
    if s != [] {
      var l, tail := LowerStr(s), RemovePunct(s[1..]);
      var head := if IsPunct(s[0]) then [] else [s[0]];
      var lhead := if IsPunct(l[0]) then [] else [l[0]];
      assert l[0] == Lower(s[0]) && l[1..] == LowerStr(s[1..]);
      assert lhead == LowerStr(head);
      assert RemovePunct(s) == head + tail;
      assert RemovePunct(l) == lhead + RemovePunct(l[1..]);
      RemovePunctLower(s[1..]);
      LowerStrAppend(head, tail);
    }
  }

  lemma LowerStrAppend(a: string, b: string)
    ensures LowerStr(a + b) == LowerStr(a) + LowerStr(b)
  {
  }

  /** Normalization does not see letter case: normalize(s.lower()) == normalize(s). */
  lemma NormalizeIgnoresCase(s: string)
    ensures NormalizeText(LowerStr(s)) == NormalizeText(s)
  {
    RemovePunctLower(s);
    var r := RemovePunct(s);
    assert LowerStr(LowerStr(r)) == LowerStr(r);
  }

  /** Normalization does not see punctuation: normalize(s.translate(table)) == normalize(s). */
  lemma NormalizeIgnoresPunctuation(s: string)
    ensures NormalizeText(RemovePunct(s)) == NormalizeText(s)
  {
    assert forall c :: c in RemovePunct(s) ==> !IsPunct(c);
  }

  /** The kind tag of a single_edit_match_info result. */
  datatype EditKind = Exact | Substitution | Insertion | Deletion

  /** ("kind", position) */
  datatype EditMatch = EditMatch(kind: EditKind, pos: int)

  const SubPenalties: seq<int> := [5, 4, 3, 2, 1]
  const InsDelPenalties: seq<int> := [10, 8, 6, 4, 2]

  /** Python's table[idx]: a negative index counts from the end. */
  function PyIndex(table: seq<int>, idx: int): int
    requires -|table| <= idx < |table|
  {
    if idx >= 0 then table[idx] else table[|table| + idx]
  }

  /** penalty_for: the penalty of an edit of the given kind at a 1-based position.
      The tables are indexed with pos - 1, so a position from 0 down to -4 reads a table from
      its end (position 0 costs what a position past the end costs) and a position below -4
      would be an IndexError; the kind that uses no table accepts any position. */
  function PenaltyFor(kind: EditKind, pos: int): (p: int)
    requires kind == Exact || pos >= -4
    ensures p >= 0
    ensures kind == Exact ==> p == 0
    ensures kind == Substitution && pos >= 1 ==> p == (if pos <= 5 then 6 - pos else 1)
    ensures (kind == Insertion || kind == Deletion) && pos >= 1 ==> p == (if pos <= 5 then 12 - 2 * pos else 2)
    ensures kind == Substitution && pos <= 0 ==> p == 1 - pos
    ensures (kind == Insertion || kind == Deletion) && pos <= 0 ==> p == 2 - 2 * pos
  {
    var idx := pos - 1;
    match kind
    case Substitution =>
      if idx < |SubPenalties| then PyIndex(SubPenalties, idx) else SubPenalties[|SubPenalties| - 1]
    case Insertion | Deletion =>
      if idx < |InsDelPenalties| then PyIndex(InsDelPenalties, idx) else InsDelPenalties[|InsDelPenalties| - 1]
    case Exact => 0
  }

  /** At every position an insertion or deletion costs exactly twice a substitution,
      and so strictly more. */
  lemma InsDelCostsTwiceSubstitution(pos: int)
    requires pos >= -4
    ensures PenaltyFor(Insertion, pos) == PenaltyFor(Deletion, pos) == 2 * PenaltyFor(Substitution, pos)
    ensures PenaltyFor(Insertion, pos) > PenaltyFor(Substitution, pos) >= 1
  {
  }

  /** prefix and candidate have equal length and differ exactly at index k. */
  ghost predicate IsSubstitutionAt(prefix: string, candidate: string, k: int) {
    |prefix| == |candidate| && 0 <= k < |prefix| && prefix[k] != candidate[k]
    && forall j :: 0 <= j < |prefix| && j != k ==> prefix[j] == candidate[j]
  }

  /** Removing candidate[k] yields prefix. */
  ghost predicate IsInsertionAt(prefix: string, candidate: string, k: int) {
    |candidate| == |prefix| + 1 && 0 <= k < |candidate| && RemoveAt(candidate, k) == prefix
  }

  /** Removing prefix[k] yields candidate. */
  ghost predicate IsDeletionAt(prefix: string, candidate: string, k: int) {
    |prefix| == |candidate| + 1 && 0 <= k < |prefix| && RemoveAt(prefix, k) == candidate
  }

  /** candidate is prefix with exactly one character substituted, inserted or deleted. */
  ghost predicate OneEdit(prefix: string, candidate: string) {
    || (exists k :: IsSubstitutionAt(prefix, candidate, k))
    || (exists k :: IsInsertionAt(prefix, candidate, k))
    || (exists k :: IsDeletionAt(prefix, candidate, k))
  }

  /** The loop `while i < limit and a[i] == b[i]: i += 1`, started at i. */
  function AdvanceWhileEqual(a: string, b: string, limit: nat, i: nat): (r: nat)
    requires limit <= |a| && limit <= |b| && i <= limit
    requires forall j :: 0 <= j < i ==> a[j] == b[j]
    ensures i <= r <= limit
    ensures forall j :: 0 <= j < r ==> a[j] == b[j]
    ensures r < limit ==> a[r] != b[r]
    decreases limit - i
  {
    if i < limit && a[i] == b[i] then AdvanceWhileEqual(a, b, limit, i + 1) else i
  }

  /** single_edit_match_info(prefix, candidate). */
  function SingleEditMatchInfo(prefix: string, candidate: string): (r: Option<EditMatch>)
    ensures r == Some(EditMatch(Exact, 0)) <==> prefix == candidate
    ensures r.Some? && r.value.kind == Exact ==> prefix == candidate
    ensures |prefix| > |candidate| + 1 || |candidate| > |prefix| + 1 ==> r.None?
    ensures r.Some? && r.value.kind == Substitution ==> IsSubstitutionAt(prefix, candidate, r.value.pos - 1)
    ensures r.Some? && r.value.kind == Insertion ==> IsInsertionAt(prefix, candidate, r.value.pos - 1)
    ensures r.Some? && r.value.kind == Deletion ==> IsDeletionAt(prefix, candidate, r.value.pos - 1)
  {
    if prefix == candidate then Some(EditMatch(Exact, 0))
    else
      var lp, lc := |prefix|, |candidate|;
      if lp - lc > 1 || lc - lp > 1 then None
      else if lp == lc then
        var diffs := Diffs(prefix, candidate, lp);
        if |diffs| == 1 then
          assert diffs[0] in diffs;
          forall j | 0 <= j < lp && j != diffs[0] ensures prefix[j] == candidate[j] {
            assert j !in diffs;
          }
          Some(EditMatch(Substitution, diffs[0] + 1))
        else None
      else if lp + 1 == lc then
        var i := AdvanceWhileEqual(prefix, candidate, lp, 0);
        if prefix[i..] == candidate[i + 1..] then
          assert candidate[..i] == prefix[..i];
          Some(EditMatch(Insertion, i + 1))
        else None
      else
        // here lp == lc + 1
        var i := AdvanceWhileEqual(prefix, candidate, lc, 0);
        if prefix[i + 1..] == candidate[i..] then
          assert candidate[..i] == prefix[..i];
          Some(EditMatch(Deletion, i + 1))
        else None
  }

  /** A substitution is found whenever exactly one index differs. */
  lemma SubstitutionFound(prefix: string, candidate: string, k: int)
    requires IsSubstitutionAt(prefix, candidate, k)
    ensures SingleEditMatchInfo(prefix, candidate) == Some(EditMatch(Substitution, k + 1))
  {
    assert prefix != candidate by {
      assert prefix[k] != candidate[k];
    }
    DiffsAtOnlyIndex(prefix, candidate, |prefix|, k);
    assert Diffs(prefix, candidate, |prefix|)[0] == k;
  }

  lemma {:induction false} DiffsNone(a: string, b: string, n: nat)
    requires n <= |a| && n <= |b|
    requires forall j :: 0 <= j < n ==> a[j] == b[j]
    ensures Diffs(a, b, n) == []
  {
    if n > 0 {
      DiffsNone(a, b, n - 1);
    }
  }

  /** When a and b differ below n only at k, the comprehension yields [k]. */
  lemma DiffsAtOnlyIndex(a: string, b: string, n: nat, k: nat)
    requires k < n <= |a| && n <= |b|
    requires a[k] != b[k]
    requires forall j :: 0 <= j < n && j != k ==> a[j] == b[j]
    ensures Diffs(a, b, n) == [k]
  {
    var d := Diffs(a, b, n);
    assert |d| >= 2 ==> d[0] < d[1];
    assert k in d;
    forall i | 0 <= i < |d| ensures d[i] == k {
      assert d[i] in d;
    }
    assert |d| == 1 && d[0] == k;
  }

  /** The scan runs at least up to the first index where a and b disagree. */
  lemma {:induction false} AdvancePastAgreement(a: string, b: string, limit: nat, i: nat, k: nat)
    requires i <= k <= limit <= |a| && limit <= |b|
    requires forall j :: 0 <= j < k ==> a[j] == b[j]
    ensures AdvanceWhileEqual(a, b, limit, i) >= k
    decreases k - i
  {
    if i < k {
      AdvancePastAgreement(a, b, limit, i + 1, k);
    }
  }

  /** An insertion is found whenever candidate is prefix with one extra character. */
  lemma InsertionFound(prefix: string, candidate: string, k: int)
    requires IsInsertionAt(prefix, candidate, k)
    ensures SingleEditMatchInfo(prefix, candidate).Some?
  {
    var lp := |prefix|;
    forall j | 0 <= j < k ensures prefix[j] == candidate[j] {
      assert RemoveAt(candidate, k)[j] == candidate[j];
    }
    forall j | k <= j < lp ensures prefix[j] == candidate[j + 1] {
      assert RemoveAt(candidate, k)[j] == candidate[j + 1];
    }
    var i := AdvanceWhileEqual(prefix, candidate, lp, 0);
    AdvancePastAgreement(prefix, candidate, lp, 0, k);
    ShiftedTails(prefix, candidate, i);
  }

  /** A deletion is found whenever candidate is prefix with one character removed. */
  lemma DeletionFound(prefix: string, candidate: string, k: int)
    requires IsDeletionAt(prefix, candidate, k)
    ensures SingleEditMatchInfo(prefix, candidate).Some?
  {
    var lc := |candidate|;
    forall j | 0 <= j < k ensures prefix[j] == candidate[j] {
      assert RemoveAt(prefix, k)[j] == prefix[j];
    }
    forall j | k <= j < lc ensures candidate[j] == prefix[j + 1] {
      assert RemoveAt(prefix, k)[j] == prefix[j + 1];
    }
    var i := AdvanceWhileEqual(prefix, candidate, lc, 0);
    AdvancePastAgreement(prefix, candidate, lc, 0, k);
    ShiftedTails(candidate, prefix, i);
  }

  /** a from i on is b from i + 1 on, when b is one longer and agrees one place later. */
  lemma ShiftedTails(a: string, b: string, i: nat)
    requires i <= |a| && |b| == |a| + 1
    requires forall j :: i <= j < |a| ==> a[j] == b[j + 1]
    ensures a[i..] == b[i + 1..]
  {
  }

  /** single_edit_match_info is sound and complete: it returns a result exactly when the
      strings are equal or one edit apart. */
  lemma SingleEditComplete(prefix: string, candidate: string)
    ensures SingleEditMatchInfo(prefix, candidate).Some? <==> prefix == candidate || OneEdit(prefix, candidate)
  {
    var r := SingleEditMatchInfo(prefix, candidate);
    if r.Some? && prefix != candidate {
      var k := r.value.pos - 1;
      match r.value.kind
      case Substitution => assert IsSubstitutionAt(prefix, candidate, k);
      case Insertion => assert IsInsertionAt(prefix, candidate, k);
      case Deletion => assert IsDeletionAt(prefix, candidate, k);
    }
    if OneEdit(prefix, candidate) {
      if k :| IsSubstitutionAt(prefix, candidate, k) {
        SubstitutionFound(prefix, candidate, k);
      } else if k :| IsInsertionAt(prefix, candidate, k) {
        InsertionFound(prefix, candidate, k);
      } else {
        var k :| IsDeletionAt(prefix, candidate, k);
        DeletionFound(prefix, candidate, k);
      }
    }
  }
}
