/** Engine A (autocomplete.py): the AutoCompleteSystem — the sentence list, the
    n-gram word index built line by line, and the query that looks up candidate
    sentences, scores them with the single-edit classifier and keeps the best five. */
module AutoCompleteIndex {
  import opened Text
  import opened Options
  import opened Ranking
  import opened AutoComplete

  /** One entry of `sentences`: the stripped line, the file it came from and its 0-based line number. */
  datatype SentenceRecord = SentenceRecord(text: string, path: string, offset: nat)

  // ---------------------------------------------------------------------------
  // The keys a line is indexed under
  // ---------------------------------------------------------------------------

  /** The first c substrings of w of length n, left to right. */
  function Grams(w: string, n: nat, c: nat): (r: seq<string>)
    requires n > 0 && (c == 0 || c + n <= |w| + 1)
    ensures |r| == c
    ensures forall j :: 0 <= j < c ==> r[j] == w[j..j + n]
  {
    if c == 0 then [] else Grams(w, n, c - 1) + [w[c - 1..c - 1 + n]]
  }

  /** w[j:j + n] for j in range(len(w) - n + 1). */
  function AllGrams(w: string, n: nat): seq<string>
    requires n > 0
  {
    if n <= |w| then Grams(w, n, |w| - n + 1) else []
  }

  /** The substrings of every length in [lo, hi), shortest length first. */
  function GramsOfLengths(w: string, lo: nat, hi: nat): seq<string>
    requires lo > 0
    decreases hi
  {
    if hi <= lo then [] else GramsOfLengths(w, lo, hi - 1) + AllGrams(w, hi - 1)
  }

  /** The keys one normalized word is registered under, in the order the indexing loops emit them:
      a two-letter word verbatim, any other word by its substrings of length 3, then 4 and 5. */
  function WordKeys(w: string): seq<string> {
    if |w| == 2 then [w] else AllGrams(w, 3) + GramsOfLengths(w, 4, Min(6, |w| + 1))
  }

  /** The keys of a whole line, word after word. */
  function LineKeys(ws: seq<string>): seq<string> {
    if ws == [] then [] else LineKeys(ws[..|ws| - 1]) + WordKeys(ws[|ws| - 1])
  }

  /** The keys a stored sentence is registered under. */
  function KeysOf(rec: SentenceRecord): seq<string> {
    LineKeys(Words(NormalizeText(rec.text)))
  }

  /** k is a key of the word w, stated without the loops. */
  ghost predicate KeyOfWord(k: string, w: string) {
    (|w| == 2 && k == w) || (|w| != 2 && 3 <= |k| <= 5 && exists j :: OccursAt(w, k, j))
  }

  lemma AllGramsMeaning(w: string, n: nat, k: string)
    requires n > 0
    ensures k in AllGrams(w, n) <==> |k| == n && exists j :: OccursAt(w, k, j)
  {
    if k in AllGrams(w, n) {
      var j :| 0 <= j < |AllGrams(w, n)| && AllGrams(w, n)[j] == k;
      assert OccursAt(w, k, j);
    }
    if |k| == n && exists j :: OccursAt(w, k, j) {
      var j :| OccursAt(w, k, j);
      assert AllGrams(w, n)[j] == k;
    }
  }

  lemma {:induction false} GramsOfLengthsMeaning(w: string, lo: nat, hi: nat, k: string)
    requires lo > 0
    ensures k in GramsOfLengths(w, lo, hi) <==> lo <= |k| < hi && exists j :: OccursAt(w, k, j)
    decreases hi
  {
    if hi > lo {
      var shorter, longest := GramsOfLengths(w, lo, hi - 1), AllGrams(w, hi - 1);
      assert k in GramsOfLengths(w, lo, hi) <==> k in shorter || k in longest;
      GramsOfLengthsMeaning(w, lo, hi - 1, k);
      AllGramsMeaning(w, hi - 1, k);
    }
  }

  /** The keys of a word: a two-letter word itself; for any other word, exactly its
      substrings of length 3 to 5; so a one-letter word has none. */
  lemma WordKeysMeaning(w: string, k: string)
    ensures k in WordKeys(w) <==> KeyOfWord(k, w)
  {
    if |w| != 2 {
      AllGramsMeaning(w, 3, k);
      GramsOfLengthsMeaning(w, 4, Min(6, |w| + 1), k);
    }
  }

  /** A one-letter word adds no key. */
  lemma ShortWordHasNoKeys(w: string)
    requires |w| <= 1
    ensures WordKeys(w) == []
  {
  }

  /** The keys of a line are the keys of its words. */
  lemma {:induction false} LineKeysMeaning(ws: seq<string>, k: string)
    ensures k in LineKeys(ws) <==> exists w :: w in ws && KeyOfWord(k, w)
    decreases |ws|
  {
    if ws != [] {
      var init, last := ws[..|ws| - 1], ws[|ws| - 1];
      assert ws == init + [last];
      LineKeysMeaning(init, k);
      WordKeysMeaning(last, k);
    }
  }

  // ---------------------------------------------------------------------------
  // The word index as a function of the sentence list
  // ---------------------------------------------------------------------------

  /** word_index.get(k, []) */
  function Lookup(m: map<string, seq<nat>>, k: string): seq<nat> {
    if k in m then m[k] else []
  }

  /** Register id x under every key of ks in turn: word_index.setdefault(k, []).append(x). */
  function Register(m: map<string, seq<nat>>, ks: seq<string>, x: nat): map<string, seq<nat>> {
    if ks == [] then m
    else
      var m' := Register(m, ks[..|ks| - 1], x);
      var k := ks[|ks| - 1];
      m'[k := Lookup(m', k) + [x]]
  }

  lemma RegisterSnoc(m: map<string, seq<nat>>, ks: seq<string>, k: string, x: nat)
    ensures Register(m, ks + [k], x) == Register(m, ks, x)[k := Lookup(Register(m, ks, x), k) + [x]]
  {
    assert (ks + [k])[..|ks|] == ks;
  }

  /** One round of the n-gram loop registers the next substring of w. */
  lemma RegisterGram(m: map<string, seq<nat>>, w: string, n: nat, j: nat, x: nat)
    requires n > 0 && j + n <= |w|
    ensures var r := Register(m, Grams(w, n, j), x);
      Register(m, Grams(w, n, j + 1), x) == r[w[j..j + n] := Lookup(r, w[j..j + n]) + [x]]
  {
    assert Grams(w, n, j + 1) == Grams(w, n, j) + [w[j..j + n]];
    RegisterSnoc(m, Grams(w, n, j), w[j..j + n], x);
  }

  lemma {:induction false} RegisterAppend(m: map<string, seq<nat>>, a: seq<string>, b: seq<string>, x: nat)
    ensures Register(m, a + b, x) == Register(Register(m, a, x), b, x)
    decreases |b|
  {
    if b == [] {
      assert a + b == a;
    } else {
      var init, k := b[..|b| - 1], b[|b| - 1];
      assert b == init + [k];
      assert a + b == (a + init) + [k];
      RegisterAppend(m, a, init, x);
      RegisterSnoc(m, a + init, k, x);
      RegisterSnoc(Register(m, a, x), init, k, x);
    }
  }

  /** m lists exactly the stored sentences under their keys: every id registered under a key
      is the index of a stored sentence that has the key, and every key of every stored
      sentence lists that sentence's index. */
  ghost predicate IndexExact(ss: seq<SentenceRecord>, m: map<string, seq<nat>>) {
    forall k: string, id: nat :: id in Lookup(m, k) <==> id < |ss| && k in KeysOf(ss[id])
  }

  /** Registering keeps every id and key already there, and adds x exactly under the keys of ks. */
  lemma {:induction false} RegisterMeaning(m: map<string, seq<nat>>, ks: seq<string>, x: nat, k: string, y: nat)
    ensures k in Register(m, ks, x) <==> k in m || k in ks
    ensures y in Lookup(Register(m, ks, x), k) <==> y in Lookup(m, k) || (y == x && k in ks)
    decreases |ks|
  {
    if ks != [] {
      var init := ks[..|ks| - 1];
      assert ks == init + [ks[|ks| - 1]];
      RegisterMeaning(m, init, x, k, y);
    }
  }

  /** Registering the keys of a new sentence under its index keeps the index exact. */
  lemma RegisterKeepsExact(ss: seq<SentenceRecord>, m: map<string, seq<nat>>, rec: SentenceRecord)
    requires IndexExact(ss, m)
    ensures IndexExact(ss + [rec], Register(m, KeysOf(rec), |ss|))
  {
    var ss' := ss + [rec];
    forall k: string, id: nat
      ensures id in Lookup(Register(m, KeysOf(rec), |ss|), k) <==> id < |ss'| && k in KeysOf(ss'[id])
    {
      RegisterMeaning(m, KeysOf(rec), |ss|, k, id);
      if id < |ss| {
        assert ss'[id] == ss[id];
      }
    }
  }

  /** What adding one line does to the index: the new sentence's index n is registered
      under every key of the line (a two-letter word verbatim, a substring of length 3 to 5
      of any other word) and nowhere else, and nothing registered before is lost. */
  lemma AddLineIndexes(m: map<string, seq<nat>>, rec: SentenceRecord, n: nat, k: string, id: nat)
    ensures id in Lookup(Register(m, KeysOf(rec), n), k) <==>
      id in Lookup(m, k) || (id == n && exists w :: w in Words(NormalizeText(rec.text)) && KeyOfWord(k, w))
  {
    RegisterMeaning(m, KeysOf(rec), n, k, id);
    LineKeysMeaning(Words(NormalizeText(rec.text)), k);
  }

  /** The record line i of the file at path adds: none when it is blank after stripping. */
  function LineRecord(path: string, line: string, i: nat): seq<SentenceRecord> {
    var t := Strip(line);
    if t == [] then [] else [SentenceRecord(t, path, i)]
  }

  /** The records a file adds, one per line that is not blank after stripping, numbered from 0. */
  function FileRecords(path: string, lines: seq<string>): seq<SentenceRecord> {
    if lines == [] then []
    else
      var n := |lines| - 1;
      FileRecords(path, lines[..n]) + LineRecord(path, lines[n], n)
  }

  /** The records of the first n + 1 lines: those of the first n, then line n if it is not blank. */
  lemma FileRecordsSnoc(path: string, lines: seq<string>, n: nat)
    requires n < |lines|
    ensures FileRecords(path, lines[..n + 1]) == FileRecords(path, lines[..n]) + LineRecord(path, lines[n], n)
  {
    assert lines[..n + 1][..n] == lines[..n];
  }

  /** Every record a file adds is a non-blank line of it, stripped, with its own line number. */
  lemma {:induction false} FileRecordsMeaning(path: string, lines: seq<string>, rec: SentenceRecord)
    ensures rec in FileRecords(path, lines) <==> FileLine(path, lines, rec)
    decreases |lines|
  {
    if lines != [] {
      var n := |lines| - 1;
      var init := lines[..n];
      var last := LineRecord(path, lines[n], n);
      assert FileRecords(path, lines) == FileRecords(path, init) + last;
      FileRecordsMeaning(path, init, rec);
      assert FileLine(path, lines, rec) <==> FileLine(path, init, rec) || rec in last by {
        if rec.offset < n {
          assert init[rec.offset] == lines[rec.offset];
        }
      }
    }
  }

  /** rec is line rec.offset of the file at path, stripped and not blank. */
  ghost predicate FileLine(path: string, lines: seq<string>, rec: SentenceRecord) {
    rec.path == path && rec.offset < |lines| && rec.text == Strip(lines[rec.offset]) && rec.text != []
  }

  // ---------------------------------------------------------------------------
  // Candidate lookup
  // ---------------------------------------------------------------------------

  function Ids(s: seq<nat>): set<nat> {
    set i | i in s
  }

  /** The ids found under first_word[:3], ..., first_word[:n]. */
  function ProbeUpTo(m: map<string, seq<nat>>, fw: string, n: nat): set<nat>
    requires n <= |fw|
  {
    if n < 3 then {} else ProbeUpTo(m, fw, n - 1) + Ids(Lookup(m, fw[..n]))
  }

  /** The ids the index yields for the first word of the query. */
  function Probe(m: map<string, seq<nat>>, fw: string): set<nat> {
    if |fw| == 2 then Ids(Lookup(m, fw)) else ProbeUpTo(m, fw, Min(5, |fw|))
  }

  /** The sentences scanned: what the index yields, or every sentence when it yields nothing. */
  function CandidateSet(m: map<string, seq<nat>>, count: nat, fw: string): set<nat> {
    var p := Probe(m, fw);
    if p == {} then AllIds(count) else p
  }

  /** set(range(count)) */
  function AllIds(count: nat): (r: set<nat>)
    ensures forall i: nat :: i in r <==> i < count
  {
    if count == 0 then {} else AllIds(count - 1) + {count - 1}
  }

  /** first_word[:3] is among the probes of the loop, so retrying it cannot add a candidate. */
  lemma RetryAddsNothing(m: map<string, seq<nat>>, fw: string)
    requires |fw| >= 3
    ensures Ids(Lookup(m, fw[..3])) <= Probe(m, fw)
  {
    ProbeGrows(m, fw, 3, Min(5, |fw|));
  }

  lemma {:induction false} ProbeGrows(m: map<string, seq<nat>>, fw: string, a: nat, b: nat)
    requires a <= b <= |fw|
    ensures ProbeUpTo(m, fw, a) <= ProbeUpTo(m, fw, b)
    decreases b
  {
    if a < b {
      ProbeGrows(m, fw, a, b - 1);
    }
  }

  /** One of the first 3..n letters of fw is a key of rec. */
  ghost predicate ReachedBy(rec: SentenceRecord, fw: string, n: nat) {
    exists l :: 3 <= l <= n && l <= |fw| && fw[..l] in KeysOf(rec)
  }

  /** The sentence rec is reached from the first word fw: fw itself is one of its keys when
      it has two letters; otherwise one of fw's first 3, 4 or 5 letters is. */
  ghost predicate ProbeHit(rec: SentenceRecord, fw: string) {
    if |fw| == 2 then fw in KeysOf(rec) else ReachedBy(rec, fw, 5)
  }

  lemma {:induction false} ProbeUpToMeaning(ss: seq<SentenceRecord>, m: map<string, seq<nat>>, fw: string, n: nat, id: nat)
    requires IndexExact(ss, m) && n <= |fw|
    ensures id in ProbeUpTo(m, fw, n) <==> id < |ss| && ReachedBy(ss[id], fw, n)
    decreases n
  {
    if n >= 3 {
      ProbeUpToMeaning(ss, m, fw, n - 1, id);
      if id < |ss| && ReachedBy(ss[id], fw, n) && !ReachedBy(ss[id], fw, n - 1) {
        var l :| 3 <= l <= n && l <= |fw| && fw[..l] in KeysOf(ss[id]);
        assert l == n;
      }
    }
  }

  /** Over an index built from ss, the probe finds exactly the sentences the first word reaches. */
  lemma ProbeMeaning(ss: seq<SentenceRecord>, m: map<string, seq<nat>>, fw: string, id: nat)
    requires IndexExact(ss, m)
    ensures id in Probe(m, fw) <==> id < |ss| && ProbeHit(ss[id], fw)
  {
    if |fw| != 2 {
      ProbeUpToMeaning(ss, m, fw, Min(5, |fw|), id);
      if id < |ss| {
        assert ReachedBy(ss[id], fw, 5) == ReachedBy(ss[id], fw, Min(5, |fw|));
      }
    }
  }

  /** Every candidate is a stored sentence, and it is reached from the first word unless
      the index yields nothing, in which case every stored sentence is a candidate. */
  lemma CandidateMeaning(ss: seq<SentenceRecord>, m: map<string, seq<nat>>, fw: string, id: nat)
    requires IndexExact(ss, m)
    ensures id in CandidateSet(m, |ss|, fw) ==> id < |ss|
    ensures Probe(m, fw) != {} ==> (id in CandidateSet(m, |ss|, fw) <==> id < |ss| && ProbeHit(ss[id], fw))
    ensures Probe(m, fw) == {} ==> (id in CandidateSet(m, |ss|, fw) <==> id < |ss|)
  {
    ProbeMeaning(ss, m, fw, id);
  }

  // ---------------------------------------------------------------------------
  // Scoring one sentence
  // ---------------------------------------------------------------------------

  /** The score of the window sn[start:start + L] when it is one edit, and not zero edits, away from pn. */
  function WindowScore(pn: string, sn: string, L: nat, start: nat): (r: Option<int>)
    requires start + L <= |sn|
    ensures r.Some? ==> OneEdit(pn, sn[start..start + L])
    ensures r.Some? ==> 2 * |pn| - 10 <= r.value < 2 * |pn|
  {
    var info := SingleEditMatchInfo(pn, sn[start..start + L]);
    if info.Some? && info.value.kind != Exact then
      Some(2 * |pn| - PenaltyFor(info.value.kind, info.value.pos))
    else None
  }

  /** The score of the leftmost window of length L that is one edit away from pn, scanning from start. */
  function FirstWindowScore(pn: string, sn: string, L: int, start: nat): (r: Option<int>)
    ensures r.Some? ==> 2 * |pn| - 10 <= r.value < 2 * |pn|
    decreases |sn| - start
  {
    if L <= 0 || start + L > |sn| then None
    else if WindowScore(pn, sn, L, start).Some? then WindowScore(pn, sn, L, start)
    else FirstWindowScore(pn, sn, L, start + 1)
  }

  /** The score of the leftmost window of length L that is one edit away from pn. */
  function FirstHit(pn: string, sn: string, L: int): Option<int> {
    FirstWindowScore(pn, sn, L, 0)
  }

  /** Some window of sn, of one of the lengths lp - 1, lp, lp + 1, is one edit away from pn. */
  ghost predicate WindowHit(pn: string, sn: string) {
    exists L :: |pn| - 1 <= L <= |pn| + 1 && FirstHit(pn, sn, L).Some?
  }

  /** The scan keeps sn for pn: sn contains pn, or some window of sn is one edit away from it. */
  ghost predicate Matches(pn: string, sn: string) {
    Contains(sn, pn) || WindowHit(pn, sn)
  }

  /** The window of sn of length L at st lies within sn and is one edit away from pn. */
  ghost predicate EditWindow(pn: string, sn: string, L: int, st: int) {
    0 < L && 0 <= st && st + L <= |sn| && OneEdit(pn, sn[st..st + L])
  }

  /** A window one edit away from pn is a hit: it differs from pn, so single_edit_match_info
      reports a substitution, insertion or deletion for it. */
  lemma WindowScoreComplete(pn: string, sn: string, L: nat, start: nat)
    requires start + L <= |sn|
    ensures OneEdit(pn, sn[start..start + L]) ==> WindowScore(pn, sn, L, start).Some?
  {
    var w := sn[start..start + L];
    SingleEditComplete(pn, w);
    if OneEdit(pn, w) {
      if exists k :: IsSubstitutionAt(pn, w, k) {
        var k :| IsSubstitutionAt(pn, w, k);
        assert pn[k] != w[k];
      }
    }
  }

  /** The scan from start reaches every window at or after start that is one edit away. */
  lemma {:induction false} FirstWindowComplete(pn: string, sn: string, L: int, start: nat, s0: nat)
    requires 0 < L && start <= s0 && s0 + L <= |sn| && OneEdit(pn, sn[s0..s0 + L])
    ensures FirstWindowScore(pn, sn, L, start).Some?
    decreases s0 - start
  {
    WindowScoreComplete(pn, sn, L, start);
    if start < s0 && WindowScore(pn, sn, L, start).None? {
      FirstWindowComplete(pn, sn, L, start + 1, s0);
    }
  }

  /** A hit of the scan from start is the score of the leftmost window from start on that is
      one edit away from pn. */
  lemma {:induction false} FirstWindowLeftmost(pn: string, sn: string, L: int, start: nat)
    requires FirstWindowScore(pn, sn, L, start).Some?
    ensures exists st :: (start <= st && EditWindow(pn, sn, L, st)
                          && FirstWindowScore(pn, sn, L, start) == WindowScore(pn, sn, L, st)
                          && forall j :: start <= j < st ==> !EditWindow(pn, sn, L, j))
    decreases |sn| - start
  {
    if WindowScore(pn, sn, L, start).Some? {
      assert EditWindow(pn, sn, L, start);
    } else {
      WindowScoreComplete(pn, sn, L, start);
      FirstWindowLeftmost(pn, sn, L, start + 1);
      var st :| start + 1 <= st && EditWindow(pn, sn, L, st)
        && FirstWindowScore(pn, sn, L, start + 1) == WindowScore(pn, sn, L, st)
        && (forall j :: start + 1 <= j < st ==> !EditWindow(pn, sn, L, j));
      assert !EditWindow(pn, sn, L, start);
    }
  }

  /** Some window of length L is a hit exactly when some window of length L is one edit away. */
  lemma FirstHitMeaning(pn: string, sn: string, L: int)
    ensures FirstHit(pn, sn, L).Some? <==> exists st :: EditWindow(pn, sn, L, st)
  {
    if FirstHit(pn, sn, L).Some? {
      FirstWindowLeftmost(pn, sn, L, 0);
    }
    if exists st :: EditWindow(pn, sn, L, st) {
      var st :| EditWindow(pn, sn, L, st);
      FirstWindowComplete(pn, sn, L, 0, st);
    }
  }

  /** The scan keeps sn exactly when sn contains pn or has a window of length lp - 1, lp or
      lp + 1 that is one edit away from pn. */
  lemma MatchesMeaning(pn: string, sn: string)
    ensures Matches(pn, sn) <==> Contains(sn, pn) || exists L, st :: |pn| - 1 <= L <= |pn| + 1 && EditWindow(pn, sn, L, st)
  {
    if WindowHit(pn, sn) {
      var L :| |pn| - 1 <= L <= |pn| + 1 && FirstHit(pn, sn, L).Some?;
      FirstHitMeaning(pn, sn, L);
    }
    if exists L, st :: |pn| - 1 <= L <= |pn| + 1 && EditWindow(pn, sn, L, st) {
      var L, st :| |pn| - 1 <= L <= |pn| + 1 && EditWindow(pn, sn, L, st);
      FirstHitMeaning(pn, sn, L);
    }
  }

  /** s is a score the scan may give sn: 2 * lp when sn contains pn; otherwise the score of the
      first hit for one of the three window lengths, whichever the set iteration visits first. */
  ghost predicate PossibleScore(pn: string, sn: string, s: int) {
    if Contains(sn, pn) then s == 2 * |pn|
    else exists L :: |pn| - 1 <= L <= |pn| + 1 && FirstHit(pn, sn, L) == Some(s)
  }

  /** for start in range(len(sn) - L + 1): the first window of length L one edit away from pn. */
  method ScanWindows(pn: string, sn: string, L: nat) returns (r: Option<int>)
    requires 0 < L <= |sn|
    ensures r == FirstHit(pn, sn, L)
    ensures r.Some? <==> exists st :: EditWindow(pn, sn, L, st)
  {
    var start := 0;
    while start < |sn| - L + 1
      invariant 0 <= start <= |sn| - L + 1
      invariant FirstHit(pn, sn, L) == FirstWindowScore(pn, sn, L, start)
    {
      r := WindowScore(pn, sn, L, start);
      if r.Some? {
        FirstHitMeaning(pn, sn, L);
        return;
      }
      start := start + 1;
    }
    FirstHitMeaning(pn, sn, L);
    return None;
  }

  /** The scoring part of the loop over candidates, for the normalized prefix pn and the
      normalized sentence sn: None when the sentence is not a result. */
  method ScoreSentence(pn: string, sn: string) returns (r: Option<int>)
    ensures r.Some? <==> Matches(pn, sn)
    ensures r.Some? ==> PossibleScore(pn, sn, r.value)
    ensures r.Some? <==> Contains(sn, pn) || exists L, st :: |pn| - 1 <= L <= |pn| + 1 && EditWindow(pn, sn, L, st)
  {
    MatchesMeaning(pn, sn);
    var lp := |pn|;
    if Contains(sn, pn) {
      return Some(2 * lp);
    }
    r := None;
    var found := false;
    var lengths: set<int> := {lp, lp + 1, lp - 1};
    ghost var tried: set<int> := {};
    while lengths != {}
      invariant lengths + tried == {lp, lp + 1, lp - 1}
      invariant found <==> r.Some?
      invariant !found ==> forall L :: L in tried ==> FirstHit(pn, sn, L).None?
      invariant found ==> exists L :: lp - 1 <= L <= lp + 1 && FirstHit(pn, sn, L) == r
      decreases |lengths|
    {
      var L :| L in lengths;
      lengths := lengths - {L};
      tried := tried + {L};
      if L <= 0 || L > |sn| {
        continue;
      }
      r := ScanWindows(pn, sn, L);
      found := r.Some?;
      if found {
        break;
      }
    }
    if !found {
      forall L | lp - 1 <= L <= lp + 1
        ensures FirstHit(pn, sn, L).None?
      {
        assert L in tried;
      }
    }
  }

  /** A sentence that contains the prefix scores 2 * lp, the most any sentence scores; a
      single-edit match scores 2 * lp - penalty_for(kind, pos), strictly less and at least 2 * lp - 10. */
  lemma ScoreBounds(pn: string, sn: string, s: int)
    requires PossibleScore(pn, sn, s)
    ensures 2 * |pn| - 10 <= s <= 2 * |pn|
    ensures s == 2 * |pn| <==> Contains(sn, pn)
  {
  }

  // ---------------------------------------------------------------------------
  // De-duplication and the cut to five
  // ---------------------------------------------------------------------------

  function SentencesOf(s: seq<AutoCompleteData>): set<string> {
    set x | x in s :: x.completedSentence
  }

  lemma SentencesOfAppend(a: seq<AutoCompleteData>, b: seq<AutoCompleteData>)
    ensures SentencesOf(a + b) == SentencesOf(a) + SentencesOf(b)
  {
    assert forall x :: x in a + b <==> x in a || x in b;
  }

  /** The first suggestion of every sentence, in order. */
  function Dedup(s: seq<AutoCompleteData>): (r: seq<AutoCompleteData>)
    ensures forall x :: x in r ==> x in s
    ensures SentencesOf(r) == SentencesOf(s)
    ensures forall i, j :: 0 <= i < j < |r| ==> r[i].completedSentence != r[j].completedSentence
  {
    if s == [] then []
    else
      var d := Dedup(s[..|s| - 1]);
      var x := s[|s| - 1];
      assert s == s[..|s| - 1] + [x];
      SentencesOfAppend(s[..|s| - 1], [x]);
      SentencesOfAppend(d, [x]);
      assert SentencesOf([x]) == {x.completedSentence};
      if x.completedSentence in SentencesOf(d) then d
      else
        assert forall i :: 0 <= i < |d| ==> d[i].completedSentence in SentencesOf(d);
        d + [x]
  }

  /** De-duplication keeps the order of a sorted list. */
  lemma {:induction false} DedupSorted(s: seq<AutoCompleteData>, caseless: bool)
    requires Sorted(s, caseless)
    ensures Sorted(Dedup(s), caseless)
  {
    if s != [] {
      var init, x := s[..|s| - 1], s[|s| - 1];
      DedupSorted(init, caseless);
      var d := Dedup(init);
      forall y | y in d ensures RankLe(y, x, caseless) {
        var k :| 0 <= k < |init| && init[k] == y;
        assert s[k] == y;
      }
    }
  }

  /** De-duplicating a prefix gives a prefix of the de-duplicated whole. */
  lemma {:induction false} DedupPrefix(s: seq<AutoCompleteData>, i: nat)
    requires i <= |s|
    ensures Dedup(s[..i]) <= Dedup(s)
    decreases |s|
  {
    if i < |s| {
      var init := s[..|s| - 1];
      assert init[..i] == s[..i];
      DedupPrefix(init, i);
      assert Dedup(init) <= Dedup(s);
    } else {
      assert s[..i] == s;
    }
  }

  /** Every element of a sorted list keeps its sentence in the de-duplicated list, through an
      entry that is the element itself or ranks no lower. */
  lemma {:induction false} DedupCovers(s: seq<AutoCompleteData>, x: AutoCompleteData, caseless: bool)
    requires Sorted(s, caseless) && x in s
    ensures exists y :: y in Dedup(s) && y.completedSentence == x.completedSentence && (y == x || RankLe(y, x, caseless))
  {
    var init, last := s[..|s| - 1], s[|s| - 1];
    var d := Dedup(init);
    assert s == init + [last];
    assert forall z :: z in d ==> z in Dedup(s);
    if x in init {
      DedupCovers(init, x, caseless);
    } else if last.completedSentence in SentencesOf(d) {
      var y :| y in d && y.completedSentence == last.completedSentence;
      SortedBeforeLast(s, y, caseless);
    } else {
      assert last in Dedup(s);
    }
  }

  /** In a sorted list, an element before the last ranks no lower than the last. */
  lemma SortedBeforeLast(s: seq<AutoCompleteData>, y: AutoCompleteData, caseless: bool)
    requires Sorted(s, caseless) && s != [] && y in s[..|s| - 1]
    ensures RankLe(y, s[|s| - 1], caseless)
  {
    var k :| 0 <= k < |s| - 1 && s[..|s| - 1][k] == y;
    assert s[k] == y;
  }

  /** De-duplicating the sorted results and keeping five: at most five suggestions, with
      distinct sentences, in rank order, each one of the scored results; when fewer than five
      remain, every scored sentence is among them. */
  lemma RankedTop(results: seq<AutoCompleteData>, sorted: seq<AutoCompleteData>, out: seq<AutoCompleteData>)
    requires Sorted(sorted, true) && multiset(sorted) == multiset(results)
    requires out == Dedup(sorted)[..Min(5, |Dedup(sorted)|)]
    ensures |out| <= 5
    ensures forall i, j :: 0 <= i < j < |out| ==> out[i].completedSentence != out[j].completedSentence
    ensures Sorted(out, true)
    ensures forall x :: x in out ==> x in results
    ensures |out| < 5 ==> SentencesOf(results) <= SentencesOf(out)
    ensures forall x :: x in results && x.completedSentence !in SentencesOf(out) ==>
      |out| == 5 && RankLe(out[4], x, true)
  {
    var d := Dedup(sorted);
    DedupSorted(sorted, true);
    forall x | x in out ensures x in results {
      assert x in d;
      assert x in multiset(sorted);
    }
    forall x | x in results && x.completedSentence !in SentencesOf(out)
      ensures |out| == 5 && RankLe(out[4], x, true)
    {
      assert x in multiset(sorted);
      DroppedRanksLower(sorted, out, x);
    }
    ShortKeepsAll(results, sorted, out);
  }

  /** When fewer than five are kept, no sentence was dropped. */
  lemma ShortKeepsAll(results: seq<AutoCompleteData>, sorted: seq<AutoCompleteData>, out: seq<AutoCompleteData>)
    requires Sorted(sorted, true) && multiset(sorted) == multiset(results)
    requires out == Dedup(sorted)[..Min(5, |Dedup(sorted)|)]
    ensures |out| < 5 ==> SentencesOf(results) <= SentencesOf(out)
  {
    if |out| < 5 {
      forall t | t in SentencesOf(results) ensures t in SentencesOf(out) {
        var x :| x in results && x.completedSentence == t;
        assert x in multiset(sorted);
        if t !in SentencesOf(out) {
          DroppedRanksLower(sorted, out, x);
          assert false;
        }
      }
    }
  }

  /** A sentence missing from the five kept means five were kept, each ranked no lower. */
  lemma DroppedRanksLower(sorted: seq<AutoCompleteData>, out: seq<AutoCompleteData>, x: AutoCompleteData)
    requires Sorted(sorted, true) && x in sorted
    requires out == Dedup(sorted)[..Min(5, |Dedup(sorted)|)]
    requires x.completedSentence !in SentencesOf(out)
    ensures |out| == 5 && RankLe(out[4], x, true)
  {
    var d := Dedup(sorted);
    DedupSorted(sorted, true);
    DedupCovers(sorted, x, true);
    var y :| y in d && y.completedSentence == x.completedSentence && (y == x || RankLe(y, x, true));
    var j :| 0 <= j < |d| && d[j] == y;
    PrefixSentences(d, |out|);
    assert |out| == 5 && j >= 5;
    assert RankLe(d[4], d[j], true);
    if y != x {
      RankLeTransitive(out[4], y, x, true);
    }
  }

  lemma PrefixSentences(d: seq<AutoCompleteData>, k: nat)
    requires k <= |d|
    ensures forall j :: 0 <= j < k ==> d[j].completedSentence in SentencesOf(d[..k])
  {
    forall j | 0 <= j < k ensures d[j].completedSentence in SentencesOf(d[..k]) {
      assert d[..k][j] == d[j];
    }
  }

  /** The loop over the sorted results that keeps the first of each sentence and stops at five. */
  method TopDistinct(results: seq<AutoCompleteData>) returns (out: seq<AutoCompleteData>)
    ensures out == Dedup(results)[..Min(5, |Dedup(results)|)]
  {
    var seen: set<string> := {};
    out := [];
    var i := 0;
    while i < |results|
      invariant 0 <= i <= |results|
      invariant out == Dedup(results[..i])
      invariant seen == SentencesOf(out)
      invariant |out| < 5
    {
      var r := results[i];
      DedupStep(results, i);
      if r.completedSentence !in seen {
        SentencesOfAppend(out, [r]);
        out := out + [r];
        seen := seen + {r.completedSentence};
      }
      i := i + 1;
      if |out| >= 5 {
        break;
      }
    }
    DedupCut(results, i, out);
  }

  /** Where the loop stops: at the end of the list with fewer than five kept, or once five
      are kept; either way it has kept the first five of the de-duplicated list. */
  lemma DedupCut(s: seq<AutoCompleteData>, i: nat, out: seq<AutoCompleteData>)
    requires i <= |s| && out == Dedup(s[..i])
    requires (i == |s| && |out| < 5) || |out| == 5
    ensures out == Dedup(s)[..Min(5, |Dedup(s)|)]
  {
    DedupPrefix(s, i);
    if i == |s| {
      assert s[..i] == s;
    }
  }

  /** One round of the loop: the next result is kept exactly when its sentence is new. */
  lemma DedupStep(s: seq<AutoCompleteData>, i: nat)
    requires i < |s|
    ensures Dedup(s[..i + 1]) == if s[i].completedSentence in SentencesOf(Dedup(s[..i])) then Dedup(s[..i]) else Dedup(s[..i]) + [s[i]]
    ensures SentencesOf([s[i]]) == {s[i].completedSentence}
  {
    assert s[..i + 1][..i] == s[..i];
  }

  // ---------------------------------------------------------------------------
  // The system
  // ---------------------------------------------------------------------------

  class AutoCompleteSystem {
    var sentences: seq<SentenceRecord>
    var wordIndex: map<string, seq<nat>>

    /** The index lists exactly the stored sentences under their keys. */
    ghost predicate Valid()
      reads this
    {
      IndexExact(sentences, wordIndex)
    }

    constructor ()
      ensures sentences == [] && wordIndex == map[]
      ensures Valid()
    {
      sentences := [];
      wordIndex := map[];
      new;
      assert forall k: string :: Lookup(wordIndex, k) == [];
    }

    /** The per-line body of build_from_folder: line i of the file at path. */
    method AddLine(line: string, path: string, i: nat)
      requires Valid()
      modifies this
      ensures Valid()
      ensures sentences == old(sentences) + LineRecord(path, line, i)
      ensures Strip(line) == [] ==> wordIndex == old(wordIndex)
      ensures Strip(line) != [] ==>
        wordIndex == Register(old(wordIndex), KeysOf(SentenceRecord(Strip(line), path, i)), |old(sentences)|)
    {
      var stripped := Strip(line);
      if stripped == [] {
        return;
      }
      var idx := |sentences|;
      ghost var old0, m0 := sentences, wordIndex;
      sentences := sentences + [SentenceRecord(stripped, path, i)];
      var norm := NormalizeText(stripped);
      IndexLine(Words(norm), idx);
      RegisterKeepsExact(old0, m0, SentenceRecord(stripped, path, i));
    }

    /** for w in words: index w under the line with index idx. */
    method IndexLine(words: seq<string>, idx: nat)
      modifies this
      ensures sentences == old(sentences)
      ensures wordIndex == Register(old(wordIndex), LineKeys(words), idx)
    {
      ghost var m0 := wordIndex;
      for wi := 0 to |words|
        invariant sentences == old(sentences)
        invariant wordIndex == Register(m0, LineKeys(words[..wi]), idx)
      {
        IndexWord(words[wi], idx);
        RegisterAppend(m0, LineKeys(words[..wi]), WordKeys(words[wi]), idx);
        assert words[..wi + 1][..wi] == words[..wi];
      }
      assert words[..|words|] == words;
    }

    /** The indexing loops for one word w of the line with index idx. */
    method IndexWord(w: string, idx: nat)
      modifies this
      ensures sentences == old(sentences)
      ensures wordIndex == Register(old(wordIndex), WordKeys(w), idx)
    {
      if |w| == 2 {
        wordIndex := wordIndex[w := Lookup(wordIndex, w) + [idx]];
        assert [w][..0] == [];
      } else {
        IndexGrams(w, 3, idx);
        ghost var m3 := wordIndex;
        var length := 4;
        while length < Min(6, |w| + 1)
          invariant 4 <= length && (length == 4 || length <= Min(6, |w| + 1))
          invariant sentences == old(sentences)
          invariant wordIndex == Register(m3, GramsOfLengths(w, 4, length), idx)
        {
          ghost var before := wordIndex;
          IndexGrams(w, length, idx);
          RegisterAppend(m3, GramsOfLengths(w, 4, length), AllGrams(w, length), idx);
          length := length + 1;
        }
        RegisterAppend(old(wordIndex), AllGrams(w, 3), GramsOfLengths(w, 4, Min(6, |w| + 1)), idx);
      }
    }

    /** for j in range(len(w) - n + 1): register w[j:j + n] under idx. */
    method IndexGrams(w: string, n: nat, idx: nat)
      requires n > 0
      modifies this
      ensures sentences == old(sentences)
      ensures wordIndex == Register(old(wordIndex), AllGrams(w, n), idx)
    {
      ghost var m0 := wordIndex;
      var m := wordIndex;
      var j := 0;
      while j < |w| - n + 1
        invariant 0 <= j && (j == 0 || j <= |w| - n + 1)
        invariant m == Register(m0, Grams(w, n, j), idx)
        modifies {}
      {
        var sub := w[j..j + n];
        RegisterGram(m0, w, n, j, idx);
        m := m[sub := Lookup(m, sub) + [idx]];
        j := j + 1;
      }
      assert AllGrams(w, n) == Grams(w, n, j);
      wordIndex := m;
    }

    /** The lines of one file, in order (`for i, line in enumerate(f)`). */
    method LoadFile(path: string, lines: seq<string>)
      requires Valid()
      modifies this
      ensures Valid()
      ensures sentences == old(sentences) + FileRecords(path, lines)
    {
      ghost var before := sentences;
      for i := 0 to |lines|
        invariant Valid()
        invariant sentences == before + FileRecords(path, lines[..i])
      {
        ghost var done := FileRecords(path, lines[..i]);
        AddLine(lines[i], path, i);
        FileRecordsSnoc(path, lines, i);
        ConcatAssoc(before, done, LineRecord(path, lines[i], i));
      }
      assert lines[..|lines|] == lines;
    }

    /** The candidate lookup of get_best_k_completions for the first word fw of the query. */
    method LookupCandidates(fw: string) returns (c: set<nat>)
      ensures c == CandidateSet(wordIndex, |sentences|, fw)
    {
      c := {};
      if |fw| == 2 {
        c := c + Ids(Lookup(wordIndex, fw));
      } else {
        var length := 3;
        while length < Min(6, |fw| + 1)
          invariant 3 <= length && (length == 3 || length <= Min(6, |fw| + 1))
          invariant c == ProbeUpTo(wordIndex, fw, Min(length - 1, |fw|))
        {
          if length <= |fw| {
            c := c + Ids(Lookup(wordIndex, fw[..length]));
          }
          length := length + 1;
        }
        if c == {} && |fw| >= 3 {
          RetryAddsNothing(wordIndex, fw);
          c := c + Ids(Lookup(wordIndex, fw[..3]));
        }
      }
      if c == {} {
        c := AllIds(|sentences|);
      }
    }
  
    /** The first word of a non-empty normalized query. */
    lemma FirstWordExists(pn: string)
      requires IsNormal(pn) && pn != []
      ensures Words(pn) != []
    {
      JoinWordsOfNormal(pn);
    }

    /** The candidate ids of the query with normalized prefix pn. */
    ghost function QueryCandidates(pn: string): (c: set<nat>)
      requires Valid() && IsNormal(pn) && pn != []
      reads this
      ensures forall id :: id in c ==> id < |sentences|
    {
      FirstWordExists(pn);
      var fw := Words(pn)[0];
      forall id | id in CandidateSet(wordIndex, |sentences|, fw) ensures id < |sentences| {
        CandidateMeaning(sentences, wordIndex, fw, id);
      }
      CandidateSet(wordIndex, |sentences|, fw)
    }

    /** x is the suggestion built from stored sentence id for the normalized prefix pn. */
    ghost predicate Suggests(id: nat, pn: string, x: AutoCompleteData)
      reads this
    {
      id < |sentences|
      && x == AutoCompleteData(sentences[id].text, sentences[id].path, sentences[id].offset, x.score)
      && PossibleScore(pn, NormalizeText(sentences[id].text), x.score)
    }

    /** Stored sentence id, if the scan keeps it for pn, has its suggestion in results. */
    ghost predicate Reported(id: nat, pn: string, results: seq<AutoCompleteData>)
      reads this
    {
      id < |sentences| && (Matches(pn, NormalizeText(sentences[id].text)) ==> exists x :: x in results && Suggests(id, pn, x))
    }

    /** Stored sentence id, if the scan keeps it for pn, is answered in out, or out is full and
        the suggestion it was given ranks no higher than the fifth answer. */
    ghost predicate Covered(id: nat, pn: string, out: seq<AutoCompleteData>)
      reads this
    {
      id < |sentences| && (Matches(pn, NormalizeText(sentences[id].text)) ==>
        sentences[id].text in SentencesOf(out)
        || (|out| == 5 && exists x :: Suggests(id, pn, x) && RankLe(out[4], x, true)))
    }

    /** The loop over the candidates, in the arbitrary order of the set: one suggestion for
        every candidate sentence that contains pn or has a window one edit away from it.
        ids[k] is the candidate that results[k] was built from, in the order the loop took them. */
    method ScoreCandidates(pn: string, cands: set<nat>) returns (results: seq<AutoCompleteData>, ghost ids: seq<nat>)
      requires forall id :: id in cands ==> id < |sentences|
      ensures forall x :: x in results ==> exists id :: id in cands && Suggests(id, pn, x)
      ensures forall id :: id in cands ==> Reported(id, pn, results)
      ensures |ids| == |results|
      ensures forall i, j :: 0 <= i < j < |ids| ==> ids[i] != ids[j]
      ensures forall k :: 0 <= k < |ids| ==> ids[k] in cands && Suggests(ids[k], pn, results[k])
      ensures forall id :: id in ids <==> id in cands && Matches(pn, NormalizeText(sentences[id].text))
    {
      results, ids := [], [];
      var rest := cands;
      while rest != {}
        invariant rest <= cands
        invariant Paired(pn, cands, cands - rest, results, ids)
        decreases |rest|
      {
        var idx :| idx in rest;
        ghost var done := cands - rest;
        rest := rest - {idx};
        assert cands - rest == done + {idx};
        var rec := sentences[idx];
        var score := ScoreSentence(pn, NormalizeText(rec.text));
        if score.Some? {
          var x := AutoCompleteData(rec.text, rec.path, rec.offset, score.value);
          PairedKeep(pn, cands, done, results, ids, idx, x);
          results, ids := results + [x], ids + [idx];
        } else {
          PairedSkip(pn, cands, done, results, ids, idx);
        }
      }
      ReportedFromIds(pn, cands, results, ids);
    }

    /** results[k] is the suggestion built from candidate ids[k], no candidate twice, and the
        ids are exactly the candidates among done that the scan keeps. */
    ghost predicate Paired(pn: string, cands: set<nat>, done: set<nat>, results: seq<AutoCompleteData>, ids: seq<nat>)
      reads this
    {
      (forall id :: id in cands ==> id < |sentences|)
      && done <= cands
      && |ids| == |results|
      && (forall i, j :: 0 <= i < j < |ids| ==> ids[i] != ids[j])
      && (forall k :: 0 <= k < |ids| ==> ids[k] in cands && Suggests(ids[k], pn, results[k]))
      && (forall id :: id in ids <==> id in done && Matches(pn, NormalizeText(sentences[id].text)))
    }

    /** A kept candidate adds its suggestion and its id. */
    lemma PairedKeep(pn: string, cands: set<nat>, done: set<nat>, results: seq<AutoCompleteData>, ids: seq<nat>,
                     idx: nat, x: AutoCompleteData)
      requires Paired(pn, cands, done, results, ids)
      requires idx in cands - done && Matches(pn, NormalizeText(sentences[idx].text)) && Suggests(idx, pn, x)
      ensures Paired(pn, cands, done + {idx}, results + [x], ids + [idx])
    {
      assert idx !in ids;
      var ids', results' := ids + [idx], results + [x];
      forall id ensures id in ids' <==> id in done + {idx} && Matches(pn, NormalizeText(sentences[id].text)) {
        assert id in ids' <==> id in ids || id == idx;
      }
      forall k | 0 <= k < |ids'| ensures ids'[k] in cands && Suggests(ids'[k], pn, results'[k]) {
        if k < |ids| {
          assert ids'[k] == ids[k] && results'[k] == results[k];
        }
      }
    }

    /** A candidate the scan does not keep changes nothing but done. */
    lemma PairedSkip(pn: string, cands: set<nat>, done: set<nat>, results: seq<AutoCompleteData>, ids: seq<nat>, idx: nat)
      requires Paired(pn, cands, done, results, ids)
      requires idx in cands - done && !Matches(pn, NormalizeText(sentences[idx].text))
      ensures Paired(pn, cands, done + {idx}, results, ids)
    {
    }

    /** Results paired one to one with the kept candidates come from candidates, and give
        every kept candidate its suggestion. */
    lemma ReportedFromIds(pn: string, cands: set<nat>, results: seq<AutoCompleteData>, ids: seq<nat>)
      requires forall id :: id in cands ==> id < |sentences|
      requires |ids| == |results|
      requires forall k :: 0 <= k < |ids| ==> ids[k] in cands && Suggests(ids[k], pn, results[k])
      requires forall id :: id in ids <==> id in cands && Matches(pn, NormalizeText(sentences[id].text))
      ensures forall x :: x in results ==> exists id :: id in cands && Suggests(id, pn, x)
      ensures forall id :: id in cands ==> Reported(id, pn, results)
    {
      forall x | x in results ensures exists id :: id in cands && Suggests(id, pn, x) {
        var k :| 0 <= k < |results| && results[k] == x;
        assert ids[k] in cands && Suggests(ids[k], pn, x);
      }
      forall id | id in cands ensures Reported(id, pn, results) {
        if Matches(pn, NormalizeText(sentences[id].text)) {
          var k :| 0 <= k < |ids| && ids[k] == id;
          assert results[k] in results && Suggests(id, pn, results[k]);
        }
      }
    }

    /** A candidate with its suggestion among the results is answered in out, unless out is
        full and ranks that suggestion no higher than its fifth answer. */
    lemma CoveredFromReported(pn: string, cands: set<nat>, results: seq<AutoCompleteData>, out: seq<AutoCompleteData>)
      requires forall id :: id in cands ==> Reported(id, pn, results)
      requires forall x :: x in results && x.completedSentence !in SentencesOf(out) ==>
        |out| == 5 && RankLe(out[4], x, true)
      ensures forall id :: id in cands ==> Covered(id, pn, out)
    {
      forall id | id in cands ensures Covered(id, pn, out) {
        assert Reported(id, pn, results);
        if Matches(pn, NormalizeText(sentences[id].text)) {
          var x :| x in results && Suggests(id, pn, x);
          assert x.completedSentence == sentences[id].text;
        }
      }
    }

    /** get_best_k_completions: up to five suggestions, one per distinct sentence, best first. */
    method GetBestKCompletions(prefix: string) returns (out: seq<AutoCompleteData>)
      requires Valid()
      ensures NormalizeText(prefix) == [] ==> out == []
      ensures |out| <= 5
      ensures forall i, j :: 0 <= i < j < |out| ==> out[i].completedSentence != out[j].completedSentence
      ensures Sorted(out, true)
      ensures NormalizeText(prefix) != [] ==>
        forall x :: x in out ==> exists id :: id in QueryCandidates(NormalizeText(prefix)) && Suggests(id, NormalizeText(prefix), x)
      ensures NormalizeText(prefix) != [] ==>
        forall id :: id in QueryCandidates(NormalizeText(prefix)) ==> Covered(id, NormalizeText(prefix), out)
    {
      var pn := NormalizeText(prefix);
      if pn == [] {
        return [];
      }
      FirstWordExists(pn);
      var firstWord := Words(pn)[0];
      var cands := LookupCandidates(firstWord);
      forall id | id in cands ensures id < |sentences| {
        CandidateMeaning(sentences, wordIndex, firstWord, id);
      }
      assert cands == QueryCandidates(pn);
      var results, ids := ScoreCandidates(pn, cands);
      var sorted := SortByRank(results, true);
      out := TopDistinct(sorted);
      RankedTop(results, sorted, out);
      forall x | x in out ensures exists id :: id in QueryCandidates(pn) && Suggests(id, pn, x) {
        assert x in results;
        var id :| id in cands && Suggests(id, pn, x);
      }
      CoveredFromReported(pn, cands, results, out);
    }
  }
}
