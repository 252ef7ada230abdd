/** Engine B (initialize.py): the character trie that stores every sentence under the path
    of its normalized text, and its own normalize_text.

    The trie's nodes live in one sequence and a child is referred to by its position in it;
    a TrieNode value plays the part of the Python object, and replacing nodes[k] plays the
    part of mutating that object in place. The ghost fields record what the structure means:
    the path (pathOf) of every node, its parent and the character on the edge into it, and the
    list of every insertion made so far. */
module Initialize {
  import opened Text
  import opened Options
  import opened Ranking
  import AutoComplete

  /** normalize_text: drop punctuation, lower-case, turn every whitespace run into one space, strip. */
  function NormalizeText(text: string): (t: string)
    ensures IsNormal(t)
  {
    var r := Strip(CollapseSpaces(LowerStr(RemovePunct(text))));
    assert r == AutoComplete.NormalizeText(text) by {
      CollapseStripIsSplitJoin(LowerStr(RemovePunct(text)));
    }
    r
  }

  /** The two engines' normalizers agree on every input. */
  lemma NormalizersAgree(text: string)
    ensures NormalizeText(text) == AutoComplete.NormalizeText(text)
  {
    CollapseStripIsSplitJoin(LowerStr(RemovePunct(text)));
  }

  /** normalize_text is idempotent. */
  lemma NormalizeIdempotent(text: string)
    ensures NormalizeText(NormalizeText(text)) == NormalizeText(text)
  {
    NormalizersAgree(text);
    NormalizersAgree(NormalizeText(text));
    AutoComplete.NormalizeIdempotent(text);
  }

  /** A trie node: the child reached by each character, and the completions of the
      sentences whose normalized text ends here. */
  datatype TrieNode = TrieNode(children: map<char, nat>, completions: seq<AutoCompleteData>)

  /** One call of insert: the normalized sentence it walked and the completion it stored. */
  datatype Entry = Entry(key: string, data: AutoCompleteData)

  /** The completions stored under exactly the path key, in insertion order. */
  function DataAt(es: seq<Entry>, key: string): seq<AutoCompleteData> {
    if es == [] then []
    else
      var e := es[|es| - 1];
      DataAt(es[..|es| - 1], key) + (if e.key == key then [e.data] else [])
  }

  /** The completions stored under a path that starts with p. */
  function DataUnder(es: seq<Entry>, p: string): seq<AutoCompleteData> {
    if es == [] then []
    else
      var e := es[|es| - 1];
      DataUnder(es[..|es| - 1], p) + (if p <= e.key then [e.data] else [])
  }

  /** The completions stored strictly below p, through one of the characters in cs. */
  function DataBelow(es: seq<Entry>, p: string, cs: set<char>): seq<AutoCompleteData> {
    if es == [] then []
    else
      var e := es[|es| - 1];
      DataBelow(es[..|es| - 1], p, cs) + (if p < e.key && e.key[|p|] in cs then [e.data] else [])
  }

  /** An insertion is filed by norm when its path is norm of the sentence it stores;
      insert files every sentence by NormalizeText. */
  predicate Filed(e: Entry, norm: string -> string) {
    e.key == norm(e.data.completedSentence)
  }

  /** Every insertion of es is filed by norm. */
  ghost predicate AllFiled(es: seq<Entry>, norm: string -> string) {
    es != [] ==> AllFiled(es[..|es| - 1], norm) && Filed(es[|es| - 1], norm)
  }

  /** The completions of ds, in order, whose sentence after norm starts with p. */
  function Prefixed(ds: seq<AutoCompleteData>, p: string, norm: string -> string): (r: seq<AutoCompleteData>)
    ensures forall d :: d in r <==> d in ds && p <= norm(d.completedSentence)
  {
    if ds == [] then []
    else
      var d := ds[|ds| - 1];
      assert ds == ds[..|ds| - 1] + [d];
      Prefixed(ds[..|ds| - 1], p, norm) + (if p <= norm(d.completedSentence) then [d] else [])
  }

  /** Every stored completion, in insertion order. */
  function AllData(es: seq<Entry>): (r: seq<AutoCompleteData>)
    ensures |r| == |es|
    ensures forall i :: 0 <= i < |es| ==> r[i] == es[i].data
  {
    if es == [] then [] else AllData(es[..|es| - 1]) + [es[|es| - 1].data]
  }

  /** When every insertion is filed by norm, what is stored under the path p is exactly the
      completions whose sentence after norm starts with p. */
  lemma {:induction false} DataUnderFiled(es: seq<Entry>, p: string, norm: string -> string)
    requires AllFiled(es, norm)
    ensures DataUnder(es, p) == Prefixed(AllData(es), p, norm)
  {
    if es != [] {
      var init := es[..|es| - 1];
      DataUnderFiled(init, p, norm);
      assert AllData(es)[..|es| - 1] == AllData(init);
    }
  }

  lemma {:induction false} AllFiledAppend(a: seq<Entry>, b: seq<Entry>, norm: string -> string)
    requires AllFiled(a, norm) && AllFiled(b, norm)
    ensures AllFiled(a + b, norm)
    decreases |b|
  {
    if b == [] {
      assert a + b == a;
    } else {
      var init := b[..|b| - 1];
      assert (a + b)[..|a + b| - 1] == a + init;
      assert (a + b)[|a + b| - 1] == b[|b| - 1];
      AllFiledAppend(a, init, norm);
    }
  }

  /** A search result holding what is stored under p, when every insertion is filed by norm,
      holds exactly the completions whose sentence after norm starts with p. */
  lemma SearchFiled(es: seq<Entry>, p: string, norm: string -> string, res: seq<AutoCompleteData>)
    requires AllFiled(es, norm)
    requires multiset(res) == multiset(DataUnder(es, p))
    ensures multiset(res) == multiset(Prefixed(AllData(es), p, norm))
    ensures forall d :: d in res <==> d in AllData(es) && p <= norm(d.completedSentence)
  {
    DataUnderFiled(es, p, norm);
    forall d ensures d in res <==> d in multiset(Prefixed(AllData(es), p, norm)) {
    }
  }

  /** Everything is stored under the empty path. */
  lemma {:induction false} DataUnderEmpty(es: seq<Entry>)
    ensures DataUnder(es, []) == AllData(es)
  {
    if es != [] {
      DataUnderEmpty(es[..|es| - 1]);
    }
  }

  lemma {:induction false} DataAtNone(es: seq<Entry>, key: string)
    requires forall i :: 0 <= i < |es| ==> es[i].key != key
    ensures DataAt(es, key) == []
  {
    if es != [] {
      DataAtNone(es[..|es| - 1], key);
    }
  }

  lemma {:induction false} DataUnderNone(es: seq<Entry>, p: string)
    requires forall i :: 0 <= i < |es| ==> !(p <= es[i].key)
    ensures DataUnder(es, p) == []
  {
    if es != [] {
      DataUnderNone(es[..|es| - 1], p);
    }
  }

  lemma NextChar(p: string, c: char, key: string)
    ensures (p < key && key[|p|] == c) <==> p + [c] <= key
  {
    if p + [c] <= key {
      assert key[..|p|] == (p + [c])[..|p|] == p;
    }
    if p < key && key[|p|] == c {
      assert key[..|p| + 1] == key[..|p|] + [key[|p|]];
    }
  }

  lemma DataBelowNone(es: seq<Entry>, p: string)
    ensures DataBelow(es, p, {}) == []
  {
  }

  /** Adding a character c to the set of children collected adds the data under p + [c]. */
  lemma {:induction false} DataBelowAdd(es: seq<Entry>, p: string, cs: set<char>, c: char)
    requires c !in cs
    ensures multiset(DataBelow(es, p, cs + {c})) == multiset(DataBelow(es, p, cs)) + multiset(DataUnder(es, p + [c]))
  {
    if es != [] {
      var init, e := es[..|es| - 1], es[|es| - 1];
      var x := if p < e.key && e.key[|p|] in cs + {c} then [e.data] else [];
      var y := if p < e.key && e.key[|p|] in cs then [e.data] else [];
      var z := if p + [c] <= e.key then [e.data] else [];
      assert multiset(x) == multiset(y) + multiset(z) by {
        NextChar(p, c, e.key);
      }
      calc {
        multiset(DataBelow(es, p, cs + {c}));
        multiset(DataBelow(init, p, cs + {c})) + multiset(x);
        { DataBelowAdd(init, p, cs, c); }
        multiset(DataBelow(init, p, cs)) + multiset(DataUnder(init, p + [c])) + multiset(y) + multiset(z);
        multiset(DataBelow(init, p, cs) + y) + multiset(DataUnder(init, p + [c]) + z);
        multiset(DataBelow(es, p, cs)) + multiset(DataUnder(es, p + [c]));
      }
    }
  }

  /** One round of _collect_all_completions' loop over the children: once the subtree through
      c is collected, the characters collected so far include c. */
  lemma CollectedChild(es: seq<Entry>, p: string, done: set<char>, c: char, base: multiset<AutoCompleteData>,
                       r0: seq<AutoCompleteData>, r: seq<AutoCompleteData>)
    requires c !in done
    requires multiset(r0) == base + multiset(DataBelow(es, p, done))
    requires multiset(r) == multiset(r0) + multiset(DataUnder(es, p + [c]))
    ensures multiset(r) == base + multiset(DataBelow(es, p, done + {c}))
  {
    DataBelowAdd(es, p, done, c);
  }

  /** What is stored under p is what is stored at p plus what is stored below it, when every
      longer path through p continues with a character of cs. */
  lemma {:induction false} DataUnderSplit(es: seq<Entry>, p: string, cs: set<char>)
    requires forall i :: 0 <= i < |es| && p < es[i].key ==> es[i].key[|p|] in cs
    ensures multiset(DataUnder(es, p)) == multiset(DataAt(es, p)) + multiset(DataBelow(es, p, cs))
  {
    if es != [] {
      DataUnderSplit(es[..|es| - 1], p, cs);
    }
  }

  /** The edge for c out of node n, if there is one, goes to a later node whose path is n's
      path plus c. */
  ghost predicate EdgeOk(nodes: seq<TrieNode>, pathOf: seq<string>, n: int, c: char)
    requires |pathOf| == |nodes|
  {
    0 <= n < |nodes| && c in nodes[n].children ==>
      n < nodes[n].children[c] < |nodes| && pathOf[nodes[n].children[c]] == pathOf[n] + [c]
  }

  ghost predicate EdgesOk(nodes: seq<TrieNode>, pathOf: seq<string>) {
    |pathOf| == |nodes| && forall n, c :: EdgeOk(nodes, pathOf, n, c)
  }

  /** Node m, unless it is the root, hangs under an earlier parent by the edge labelled with
      the last character of its path. */
  ghost predicate ParentOk(nodes: seq<TrieNode>, pathOf: seq<string>, parent: seq<nat>, edge: seq<char>, m: int)
    requires |pathOf| == |nodes| && |parent| == |nodes| && |edge| == |nodes|
  {
    0 < m < |nodes| ==>
      parent[m] < m && pathOf[m] == pathOf[parent[m]] + [edge[m]]
      && edge[m] in nodes[parent[m]].children && nodes[parent[m]].children[edge[m]] == m
  }

  ghost predicate ParentsOk(nodes: seq<TrieNode>, pathOf: seq<string>, parent: seq<nat>, edge: seq<char>) {
    |pathOf| == |nodes| && |parent| == |nodes| && |edge| == |nodes|
    && forall m :: ParentOk(nodes, pathOf, parent, edge, m)
  }

  ghost predicate DistinctPaths(pathOf: seq<string>) {
    forall a, b :: 0 <= a < b < |pathOf| ==> pathOf[a] != pathOf[b]
  }

  /** The arena is a trie: node 0 is the root, with the empty path, and every node's path spells
      the characters on the edges from the root to it. */
  ghost predicate TrieShape(nodes: seq<TrieNode>, pathOf: seq<string>, parent: seq<nat>, edge: seq<char>) {
    ParentsOk(nodes, pathOf, parent, edge) && EdgesOk(nodes, pathOf) && DistinctPaths(pathOf)
    && |nodes| >= 1 && pathOf[0] == []
  }

  /** A path one character longer than node n's path, through a character n has no child
      for, is not the path of any node. */
  lemma NewPath(nodes: seq<TrieNode>, pathOf: seq<string>, parent: seq<nat>, edge: seq<char>, n: nat, c: char)
    requires TrieShape(nodes, pathOf, parent, edge) && n < |nodes| && c !in nodes[n].children
    ensures pathOf[n] + [c] !in pathOf
  {
    forall m | 0 <= m < |nodes| ensures pathOf[m] != pathOf[n] + [c] {
      if m > 0 {
        assert ParentOk(nodes, pathOf, parent, edge, m);
        var q := pathOf[m];
        assert q[..|q| - 1] == pathOf[parent[m]] && q[|q| - 1] == edge[m];
        assert (pathOf[n] + [c])[..|pathOf[n]|] == pathOf[n];
      }
    }
  }

  /** Hanging a new empty node under n by the character c keeps the arena a trie. */
  lemma AddChildShape(nodes: seq<TrieNode>, pathOf: seq<string>, parent: seq<nat>, edge: seq<char>, n: nat, c: char)
    requires TrieShape(nodes, pathOf, parent, edge) && n < |nodes| && c !in nodes[n].children
    ensures TrieShape(nodes[n := nodes[n].(children := nodes[n].children[c := |nodes|])] + [TrieNode(map[], [])],
                      pathOf + [pathOf[n] + [c]], parent + [n], edge + [c])
  {
    var k := |nodes|;
    var nodes' := nodes[n := nodes[n].(children := nodes[n].children[c := k])] + [TrieNode(map[], [])];
    var pathOf' := pathOf + [pathOf[n] + [c]];
    var parent' := parent + [n];
    var edge' := edge + [c];
    assert EdgesOk(nodes', pathOf') by {
      forall m, d ensures EdgeOk(nodes', pathOf', m, d) {
        if 0 <= m < |nodes'| && d in nodes'[m].children && (m != n || d != c) {
          assert EdgeOk(nodes, pathOf, m, d);
          assert m < k && d in nodes[m].children && nodes'[m].children[d] == nodes[m].children[d];
        }
      }
    }
    assert ParentsOk(nodes', pathOf', parent', edge') by {
      forall m ensures ParentOk(nodes', pathOf', parent', edge', m) {
        if 0 < m < k {
          assert ParentOk(nodes, pathOf, parent, edge, m);
          assert parent[m] < k && edge[m] in nodes[parent[m]].children;
          assert nodes[parent[m]].children[edge[m]] == m;
          assert parent[m] == n ==> edge[m] != c;
        }
      }
    }
    NewPath(nodes, pathOf, parent, edge, n, c);
    assert DistinctPaths(pathOf') by {
      forall a, b | 0 <= a < b < |pathOf'| ensures pathOf'[a] != pathOf'[b] {
        if b == k {
          assert pathOf[a] in pathOf;
        }
      }
    }
  }

  /** Each node holds exactly the completions inserted under its path, every insertion's path
      is a node's path, and every completion was stored with score 0. */
  ghost predicate StoredOk(nodes: seq<TrieNode>, pathOf: seq<string>, entries: seq<Entry>)
    requires |pathOf| == |nodes|
  {
    && (forall n :: 0 <= n < |nodes| ==> nodes[n].completions == DataAt(entries, pathOf[n]))
    && (forall i :: 0 <= i < |entries| ==> entries[i].key in pathOf)
    && (forall i :: 0 <= i < |entries| ==> entries[i].data.score == 0)
  }

  /** Appending a completion to node's list, and the matching entry to the insertion log,
      keeps the arena a trie whose nodes hold exactly what was inserted under their paths. */
  lemma StoreKeepsTrie(nodes: seq<TrieNode>, pathOf: seq<string>, parent: seq<nat>, edge: seq<char>,
                       entries: seq<Entry>, node: nat, data: AutoCompleteData)
    requires TrieShape(nodes, pathOf, parent, edge) && StoredOk(nodes, pathOf, entries)
    requires node < |nodes| && data.score == 0
    ensures var nodes' := nodes[node := nodes[node].(completions := nodes[node].completions + [data])];
      TrieShape(nodes', pathOf, parent, edge)
      && StoredOk(nodes', pathOf, entries + [Entry(pathOf[node], data)])
  {
    var nodes' := nodes[node := nodes[node].(completions := nodes[node].completions + [data])];
    var entries' := entries + [Entry(pathOf[node], data)];
    assert forall m :: 0 <= m < |nodes| ==> nodes'[m].children == nodes[m].children;
    assert EdgesOk(nodes', pathOf) by {
      forall m, d ensures EdgeOk(nodes', pathOf, m, d) {
        assert EdgeOk(nodes, pathOf, m, d);
      }
    }
    assert ParentsOk(nodes', pathOf, parent, edge) by {
      forall m ensures ParentOk(nodes', pathOf, parent, edge, m) {
        assert ParentOk(nodes, pathOf, parent, edge, m);
      }
    }
    forall m | 0 <= m < |nodes'| ensures nodes'[m].completions == DataAt(entries', pathOf[m]) {
      assert entries'[..|entries'| - 1] == entries;
      if m != node {
        assert pathOf[m] != pathOf[node];
      }
    }
    assert pathOf[node] in pathOf;
  }

  /** Every edge of the nodes before is still there, to the same child, in the nodes after. */
  ghost predicate KeepsEdges(before: seq<TrieNode>, after: seq<TrieNode>) {
    |before| <= |after|
    && forall n, c :: 0 <= n < |before| && c in before[n].children ==>
         c in after[n].children && after[n].children[c] == before[n].children[c]
  }

  /** Nodes that hold what was inserted under their paths, before and after adding nodes with
      no new insertion, hold the same completions. */
  lemma CompletionsKept(nodes0: seq<TrieNode>, paths0: seq<string>, nodes1: seq<TrieNode>, paths1: seq<string>,
                        entries: seq<Entry>)
    requires |paths0| == |nodes0| && |paths1| == |nodes1| && paths0 <= paths1
    requires StoredOk(nodes0, paths0, entries) && StoredOk(nodes1, paths1, entries)
    ensures forall n :: 0 <= n < |nodes0| ==> nodes0[n].completions == nodes1[n].completions
  {
    forall n | 0 <= n < |nodes0| ensures nodes0[n].completions == nodes1[n].completions {
      assert paths1[n] == paths0[n];
    }
  }

  /** Completion lists that were kept and then only extended have only been extended. */
  lemma CompletionsGrow(a: seq<TrieNode>, b: seq<TrieNode>, c: seq<TrieNode>)
    requires |a| <= |b| == |c|
    requires forall n :: 0 <= n < |a| ==> a[n].completions == b[n].completions
    requires forall n :: 0 <= n < |b| ==> b[n].completions <= c[n].completions
    ensures forall n :: 0 <= n < |a| ==> a[n].completions <= c[n].completions
  {
  }

  lemma KeepsEdgesTransitive(a: seq<TrieNode>, b: seq<TrieNode>, c: seq<TrieNode>)
    requires KeepsEdges(a, b) && KeepsEdges(b, c)
    ensures KeepsEdges(a, c)
  {
  }

  class Trie {
    var nodes: seq<TrieNode>
    ghost var pathOf: seq<string>
    ghost var parent: seq<nat>
    ghost var edge: seq<char>
    ghost var entries: seq<Entry>

    ghost predicate Shape()
      reads this
    {
      TrieShape(nodes, pathOf, parent, edge)
    }

    ghost predicate Valid()
      reads this
    {
      Shape() && StoredOk(nodes, pathOf, entries)
    }

    constructor ()
      ensures Valid()
      ensures entries == []
    {
      nodes := [TrieNode(map[], [])];
      pathOf := [[]];
      parent := [0];
      edge := [' '];
      entries := [];
    }

    /** The node reached by following the characters of p from the root, if every step exists. */
    ghost function Walk(p: string): (r: Option<nat>)
      requires Shape()
      reads this
      ensures r.Some? ==> r.value < |nodes| && pathOf[r.value] == p
    {
      if p == [] then Some(0)
      else
        match Walk(p[..|p| - 1])
        case None => None
        case Some(k) =>
          var c := p[|p| - 1];
          if c in nodes[k].children then
            assert EdgeOk(nodes, pathOf, k, c);
            assert p == p[..|p| - 1] + [c];
            Some(nodes[k].children[c])
          else None
    }

    /** The edge for c out of node n leads to a later node, whose path is n's path plus c. */
    lemma ChildPath(n: nat, c: char)
      requires Shape() && n < |nodes| && c in nodes[n].children
      ensures n < nodes[n].children[c] < |nodes| && pathOf[nodes[n].children[c]] == pathOf[n] + [c]
    {
      assert EdgeOk(nodes, pathOf, n, c);
    }

    /** Every node is reached by walking its own path. */
    lemma {:induction false} WalkReaches(m: nat)
      requires Shape() && m < |nodes|
      ensures Walk(pathOf[m]) == Some(m)
      decreases m
    {
      if m > 0 {
        assert ParentOk(nodes, pathOf, parent, edge, m);
        var p := parent[m];
        WalkReaches(p);
        assert pathOf[m][..|pathOf[m]| - 1] == pathOf[p];
      }
    }

    /** Every prefix of a node's path is the path of a node. */
    lemma {:induction false} Ancestor(m: nat, k: nat)
      requires Shape() && m < |nodes| && k <= |pathOf[m]|
      ensures exists a :: 0 <= a < |nodes| && pathOf[a] == pathOf[m][..k]
      decreases m
    {
      if k == |pathOf[m]| {
        assert pathOf[m][..k] == pathOf[m];
      } else {
        assert ParentOk(nodes, pathOf, parent, edge, m);
        var p := parent[m];
        assert pathOf[p][..k] == pathOf[m][..k];
        Ancestor(p, k);
      }
    }

    /** A path that is not a node's path has no node below it: nothing is stored under it. */
    lemma WalkFailsNothingStored(p: string)
      requires Valid() && Walk(p).None?
      ensures DataUnder(entries, p) == []
    {
      forall i | 0 <= i < |entries| ensures !(p <= entries[i].key) {
        if p <= entries[i].key {
          var m :| 0 <= m < |nodes| && pathOf[m] == entries[i].key;
          Ancestor(m, |p|);
          assert pathOf[m][..|p|] == p;
          var a :| 0 <= a < |nodes| && pathOf[a] == p;
          WalkReaches(a);
        }
      }
      DataUnderNone(entries, p);
    }

    /** Every longer stored path through node n continues with one of n's child characters. */
    lemma ChildrenCover(n: nat)
      requires Valid() && n < |nodes|
      ensures forall i :: 0 <= i < |entries| && pathOf[n] < entries[i].key ==>
        entries[i].key[|pathOf[n]|] in nodes[n].children
    {
      forall i | 0 <= i < |entries| && pathOf[n] < entries[i].key
        ensures entries[i].key[|pathOf[n]|] in nodes[n].children
      {
        var key := entries[i].key;
        var m :| 0 <= m < |nodes| && pathOf[m] == key;
        Ancestor(m, |pathOf[n]| + 1);
        var a :| 0 <= a < |nodes| && pathOf[a] == key[..|pathOf[n]| + 1];
        assert ParentOk(nodes, pathOf, parent, edge, a);
        assert pathOf[parent[a]] == key[..|pathOf[n]|] == pathOf[n];
      }
    }

    /** `node.children[char] = TrieNode()` */
    method AddChild(n: nat, c: char)
      requires Valid() && n < |nodes| && c !in nodes[n].children
      modifies this
      ensures Valid()
      ensures nodes == old(nodes)[n := old(nodes[n]).(children := old(nodes[n].children)[c := |old(nodes)|])] + [TrieNode(map[], [])]
      ensures KeepsEdges(old(nodes), nodes)
      ensures pathOf == old(pathOf) + [old(pathOf[n]) + [c]]
      ensures entries == old(entries)
    {
      NewPath(nodes, pathOf, parent, edge, n, c);
      AddChildShape(nodes, pathOf, parent, edge, n, c);
      var k := |nodes|;
      DataAtNone(entries, pathOf[n] + [c]);
      nodes := nodes[n := nodes[n].(children := nodes[n].children[c := k])] + [TrieNode(map[], [])];
      pathOf := pathOf + [pathOf[n] + [c]];
      parent := parent + [n];
      edge := edge + [c];
    }

    /** One step of insert's walk: follow the edge for c out of node, creating it if missing. */
    method Step(node: nat, c: char) returns (child: nat)
      requires Valid() && node < |nodes|
      modifies this
      ensures Valid() && entries == old(entries)
      ensures child < |nodes| && pathOf[child] == old(pathOf[node]) + [c]
      ensures KeepsEdges(old(nodes), nodes) && old(pathOf) <= pathOf
    {
      if c !in nodes[node].children {
        AddChild(node, c);
      }
      ChildPath(node, c);
      child := nodes[node].children[c];
    }

    /** insert: walk the normalized sentence from the root, creating the missing nodes, and
        store the completion, with score 0, at the node reached. */
    method Insert(sentence: string, sourceFile: string, offset: int)
      requires Valid()
      modifies this
      ensures Valid()
      ensures entries == old(entries) + [Entry(NormalizeText(sentence), AutoCompleteData(sentence, sourceFile, offset, 0))]
      ensures Walk(NormalizeText(sentence)).Some?
      ensures var n := Walk(NormalizeText(sentence)).value;
        nodes[n].completions != [] && nodes[n].completions[|nodes[n].completions| - 1] == AutoCompleteData(sentence, sourceFile, offset, 0)
      ensures KeepsEdges(old(nodes), nodes) && old(pathOf) <= pathOf
      ensures forall n :: 0 <= n < |old(nodes)| ==> old(nodes[n].completions) <= nodes[n].completions
    {
      InsertAt(NormalizeText(sentence), AutoCompleteData(sentence, sourceFile, offset, 0));
    }

    /** The body of insert for the normalized key: walk it, then append data at the node reached. */
    method InsertAt(key: string, data: AutoCompleteData)
      requires Valid() && data.score == 0
      modifies this
      ensures Valid()
      ensures entries == old(entries) + [Entry(key, data)]
      ensures Walk(key).Some?
      ensures var n := Walk(key).value;
        nodes[n].completions != [] && nodes[n].completions[|nodes[n].completions| - 1] == data
      ensures KeepsEdges(old(nodes), nodes) && old(pathOf) <= pathOf
      ensures forall n :: 0 <= n < |old(nodes)| ==> old(nodes[n].completions) <= nodes[n].completions
    {
      ghost var nodes0, paths0, entries0 := nodes, pathOf, entries;
      var node := MakePath(key);
      ghost var walked, walkedPaths := nodes, pathOf;
      CompletionsKept(nodes0, paths0, walked, walkedPaths, entries0);
      Store(node, data);
      KeepsEdgesTransitive(nodes0, walked, nodes);
      CompletionsGrow(nodes0, walked, nodes);
    }

    /** `node.completions.append(data)`, logged as an insertion under node's path. */
    method Store(node: nat, data: AutoCompleteData)
      requires Valid() && node < |nodes| && data.score == 0
      modifies this
      ensures Valid()
      ensures nodes == old(nodes)[node := old(nodes[node]).(completions := old(nodes[node].completions) + [data])]
      ensures pathOf == old(pathOf)
      ensures entries == old(entries) + [Entry(old(pathOf[node]), data)]
      ensures KeepsEdges(old(nodes), nodes)
      ensures forall n :: 0 <= n < |nodes| ==> old(nodes[n].completions) <= nodes[n].completions
      ensures Walk(pathOf[node]) == Some(node)
    {
      StoreKeepsTrie(nodes, pathOf, parent, edge, entries, node, data);
      nodes := nodes[node := nodes[node].(completions := nodes[node].completions + [data])];
      entries := entries + [Entry(pathOf[node], data)];
      WalkReaches(node);
    }

    /** The walk of insert: follow key from the root, creating every missing node. */
    method MakePath(key: string) returns (node: nat)
      requires Valid()
      modifies this
      ensures Valid() && entries == old(entries)
      ensures node < |nodes| && pathOf[node] == key
      ensures KeepsEdges(old(nodes), nodes) && old(pathOf) <= pathOf
    {
      node := 0;
      var i := 0;
      while i < |key|
        invariant 0 <= i <= |key|
        invariant Valid()
        invariant node < |nodes| && pathOf[node] == key[..i]
        invariant entries == old(entries)
        invariant KeepsEdges(old(nodes), nodes) && old(pathOf) <= pathOf
      {
        assert key[..i + 1] == key[..i] + [key[i]];
        ghost var before := nodes;
        node := Step(node, key[i]);
        KeepsEdgesTransitive(old(nodes), before, nodes);
        i := i + 1;
      }
      assert key[..i] == key;
    }

    /** search_for_completions: every completion stored under a path that starts with p,
        as a multiset; nothing as soon as a character of p has no child on the path. */
    method SearchForCompletions(p: string) returns (res: seq<AutoCompleteData>)
      requires Valid()
      ensures Walk(p).None? ==> res == []
      ensures multiset(res) == multiset(DataUnder(entries, p))
    {
      var node: nat := 0;
      var i := 0;
      while i < |p|
        invariant 0 <= i <= |p|
        invariant Walk(p[..i]) == Some(node)
      {
        assert p[..i + 1][..i] == p[..i];
        if p[i] in nodes[node].children {
          node := nodes[node].children[p[i]];
        } else {
          assert p[..i + 1] <= p;
          WalkPrefixFails(p[..i + 1], p);
          WalkFailsNothingStored(p);
          return [];
        }
        i := i + 1;
      }
      assert p[..i] == p;
      res := CollectAllCompletions(node, []);
    }

    /** When every insertion was filed under its sentence's normalized text, as Insert and
        InsertLines file them, a search for p finds exactly the stored completions whose
        normalized sentence starts with p, each as often as it was inserted. */
    lemma SearchMeaning(p: string, res: seq<AutoCompleteData>)
      requires AllFiled(entries, NormalizeText)
      requires multiset(res) == multiset(DataUnder(entries, p))
      ensures multiset(res) == multiset(Prefixed(AllData(entries), p, NormalizeText))
      ensures forall d :: d in res <==> d in AllData(entries) && p <= NormalizeText(d.completedSentence)
    {
      SearchFiled(entries, p, NormalizeText, res);
    }

    /** Searching for the empty prefix finds one completion per insertion ever made. */
    lemma SearchAllCount(res: seq<AutoCompleteData>)
      requires multiset(res) == multiset(DataUnder(entries, []))
      ensures |res| == |entries|
    {
      DataUnderEmpty(entries);
      assert |res| == |multiset(res)| == |AllData(entries)|;
    }

    /** A walk that fails on a prefix fails on the whole path. */
    lemma {:induction false} WalkPrefixFails(q: string, p: string)
      requires Shape() && q <= p && Walk(q).None?
      ensures Walk(p).None?
      decreases |p|
    {
      if |p| > |q| {
        assert q <= p[..|p| - 1];
        WalkPrefixFails(q, p[..|p| - 1]);
      } else {
        assert q == p;
      }
    }

    /** _collect_all_completions: extend acc with the completions of node n, then of each of
        its children's subtrees. */
    method CollectAllCompletions(n: nat, acc: seq<AutoCompleteData>) returns (r: seq<AutoCompleteData>)
      requires Valid() && n < |nodes|
      ensures multiset(r) == multiset(acc) + multiset(DataUnder(entries, pathOf[n]))
      decreases |nodes| - n, 1
    {
      r := acc + nodes[n].completions;
      r := CollectChildren(n, r);
      ChildrenCover(n);
      DataUnderSplit(entries, pathOf[n], nodes[n].children.Keys);
    }

    /** The loop of _collect_all_completions over node n's children, in whatever order the
        dictionary yields them. */
    method CollectChildren(n: nat, acc: seq<AutoCompleteData>) returns (r: seq<AutoCompleteData>)
      requires Valid() && n < |nodes|
      ensures multiset(r) == multiset(acc) + multiset(DataBelow(entries, pathOf[n], nodes[n].children.Keys))
      decreases |nodes| - n, 0
    {
      r := acc;
      ghost var p := pathOf[n];
      DataBelowNone(entries, p);
      var keys := nodes[n].children.Keys;
      ghost var done: set<char> := {};
      while keys != {}
        invariant keys !! done && keys + done == nodes[n].children.Keys
        invariant multiset(r) == multiset(acc) + multiset(DataBelow(entries, p, done))
        decreases |keys|
      {
        var c :| c in keys;
        keys := keys - {c};
        var child := nodes[n].children[c];
        ChildPath(n, c);
        ghost var r0 := r;
        r := CollectAllCompletions(child, r);
        CollectedChild(entries, p, done, c, multiset(acc), r0, r);
        done := done + {c};
      }
    }

    /** Line i of a file: strip it and, unless it is blank, insert it with its 1-based number. */
    method InsertLine(path: string, line: string, i: nat)
      requires Valid()
      modifies this
      ensures Valid()
      ensures entries == old(entries) + LineEntry(path, line, i)
    {
      var sentence := Strip(line);
      if sentence != [] {
        Insert(sentence, path, i + 1);
      }
    }

    /** The per-line body of initialize_trie for one file: the stripped, non-blank lines are
        inserted with their 1-based line numbers. */
    method InsertLines(path: string, lines: seq<string>)
      requires Valid()
      modifies this
      ensures Valid()
      ensures entries == old(entries) + FileEntries(path, lines)
    {
      ghost var before := entries;
      for i := 0 to |lines|
        invariant Valid()
        invariant entries == before + FileEntries(path, lines[..i])
      {
        ghost var done := FileEntries(path, lines[..i]);
        InsertLine(path, lines[i], i);
        FileEntriesSnoc(path, lines, i);
        ConcatAssoc(before, done, LineEntry(path, lines[i], i));
      }
      assert lines[..|lines|] == lines;
    }
  }

  /** The insertion line i of a file makes: none for a blank line. */
  function LineEntry(path: string, line: string, i: nat): seq<Entry> {
    var sentence := Strip(line);
    if sentence == [] then [] else [Entry(NormalizeText(sentence), AutoCompleteData(sentence, path, i + 1, 0))]
  }

  /** The insertions a file makes, in line order. */
  function FileEntries(path: string, lines: seq<string>): seq<Entry> {
    if lines == [] then [] else FileEntries(path, lines[..|lines| - 1]) + LineEntry(path, lines[|lines| - 1], |lines| - 1)
  }

  /** The insertion insert makes for a sentence is filed under its normalized text. */
  lemma InsertKeepsFiled(es: seq<Entry>, sentence: string, sourceFile: string, offset: int)
    requires AllFiled(es, NormalizeText)
    ensures AllFiled(es + [Entry(NormalizeText(sentence), AutoCompleteData(sentence, sourceFile, offset, 0))], NormalizeText)
  {
    var e := Entry(NormalizeText(sentence), AutoCompleteData(sentence, sourceFile, offset, 0));
    assert [e][..0] == [];
    AllFiledAppend(es, [e], NormalizeText);
  }

  /** Every insertion a file makes is filed under its sentence's normalized text. */
  lemma {:induction false} FileEntriesFiled(path: string, lines: seq<string>)
    ensures AllFiled(FileEntries(path, lines), NormalizeText)
  {
    if lines != [] {
      var n := |lines| - 1;
      FileEntriesFiled(path, lines[..n]);
      AllFiledAppend(FileEntries(path, lines[..n]), LineEntry(path, lines[n], n), NormalizeText);
    }
  }

  lemma FileEntriesSnoc(path: string, lines: seq<string>, n: nat)
    requires n < |lines|
    ensures FileEntries(path, lines[..n + 1]) == FileEntries(path, lines[..n]) + LineEntry(path, lines[n], n)
  {
    assert lines[..n + 1][..n] == lines[..n];
  }
}
