/**
  What the search handlers promise, proved about the step functions of `Handlers`:
  new ids are fresh and consecutive, old nodes stay put, new nodes hang under the nodes
  that matched (or under the one new root), candidates are checked against the known
  labels, and the shape of the list is kept. The places where the code departs from a
  clean forest of distinct labels are shown by concrete lists.
 */
module HandlerLemmas {
  import opened Wrappers
  import opened Text
  import opened Adapter
  import opened Graph
  import opened Dedup
  import opened Handlers

  // ----- Ids -----

  /**
    Appending nodes numbered on from `base`, an id no old node exceeds: every new id is
    above every old id, and unique and positive ids stay unique and positive.
   */
  lemma FreshAppend(nodes: seq<Node>, added: seq<Node>, base: nat)
    requires forall i :: 0 <= i < |nodes| ==> nodes[i].id <= base
    requires NumberedFrom(added, base)
    ensures forall i, j :: 0 <= i < |nodes| && 0 <= j < |added| ==> nodes[i].id < added[j].id
    ensures UniqueIds(nodes) ==> UniqueIds(nodes + added)
    ensures PositiveIds(nodes) ==> PositiveIds(nodes + added)
  {
    var r := nodes + added;
    if UniqueIds(nodes) {
      forall i, j | 0 <= i < j < |r|
        ensures r[i].id != r[j].id
      {
        if j >= |nodes| {
          assert r[j] == added[j - |nodes|];
          if i >= |nodes| {
            assert r[i] == added[i - |nodes|];
          }
        }
      }
    }
  }

  // ----- The match branch -----

  /**
    `n` hangs under one of the first `k` parents and is labelled with the trimmed form of
    a non-blank candidate of that parent's reply whose key was not known at the start.
   */
  ghost predicate FromReply(n: Node, batches: seq<seq<Candidate>>, parents: seq<Node>, seen: set<string>, k: nat)
    requires k <= |batches| <= |parents|
  {
    exists j, v :: 0 <= j < k && Some(v) in batches[j] && !Blank(v) && Lower(v) !in seen &&
      n.url == Trim(v) && n.parentId == Some(parents[j].id)
  }

  /** Every node of `nodes` came from the replies of the first `k` parents. */
  ghost predicate AllFromReply(nodes: seq<Node>, batches: seq<seq<Candidate>>, parents: seq<Node>, seen: set<string>, k: nat)
    requires k <= |batches| <= |parents|
  {
    forall i :: 0 <= i < |nodes| ==> FromReply(nodes[i], batches, parents, seen, k)
  }

  /** The children one parent gets in the match branch come from that parent's reply. */
  lemma ChildrenFromReply(batches: seq<seq<Candidate>>, parents: seq<Node>, seen: set<string>, k: nat,
                          known: set<string>, firstId: nat)
    requires k < |batches| <= |parents|
    requires seen <= known
    ensures var children := Children(Kept(batches[k], known, RawLower), firstId, parents[k].id);
      forall i :: 0 <= i < |children| ==> FromReply(children[i], batches, parents, seen, k + 1)
  {
    var kept := Kept(batches[k], known, RawLower);
    KeptSound(batches[k], known, RawLower);
    forall i | 0 <= i < |kept|
      ensures FromReply(Children(kept, firstId, parents[k].id)[i], batches, parents, seen, k + 1)
    {
      assert kept[i] in kept;
    }
  }

  /** A node that came from the replies of the first `k` parents came from those of the first `k + 1`. */
  lemma FromReplyLater(n: Node, batches: seq<seq<Candidate>>, parents: seq<Node>, seen: set<string>, k: nat)
    requires k < |batches| <= |parents|
    requires FromReply(n, batches, parents, seen, k)
    ensures FromReply(n, batches, parents, seen, k + 1)
  {
    var j, v :| 0 <= j < k && Some(v) in batches[j] && !Blank(v) && Lower(v) !in seen &&
      n.url == Trim(v) && n.parentId == Some(parents[j].id);
  }

  /** Putting two runs of such nodes together. */
  lemma AppendFromReply(prev: seq<Node>, children: seq<Node>,
                        batches: seq<seq<Candidate>>, parents: seq<Node>, seen: set<string>, k: nat)
    requires k <= |batches| <= |parents|
    requires forall i :: 0 <= i < |prev| ==> FromReply(prev[i], batches, parents, seen, k)
    requires forall i :: 0 <= i < |children| ==> FromReply(children[i], batches, parents, seen, k)
    ensures forall i :: 0 <= i < |prev + children| ==> FromReply((prev + children)[i], batches, parents, seen, k)
  {
    forall i | |prev| <= i < |prev + children|
      ensures FromReply((prev + children)[i], batches, parents, seen, k)
    {
      assert (prev + children)[i] == children[i - |prev|];
    }
  }

  /** One more parent, the `k`-th: its accepted candidates become children and their keys become known. */
  lemma BranchNext(batches: seq<seq<Candidate>>, parents: seq<Node>, seen: set<string>, firstId: nat, k: nat)
    requires 0 < k <= |batches| <= |parents|
    ensures var g := Branch(batches, parents, seen, firstId, k - 1);
      Branch(batches, parents, seen, firstId, k).nodes ==
        g.nodes + Children(Kept(batches[k - 1], g.known, RawLower), firstId + |g.nodes|, parents[k - 1].id)
    ensures var g := Branch(batches, parents, seen, firstId, k - 1);
      Branch(batches, parents, seen, firstId, k).known ==
        g.known + KeysOf(Kept(batches[k - 1], g.known, RawLower), RawLower)
  {
  }

  /** Ids numbered on from `base` stay numbered on when children are added after them. */
  lemma IdsStep(prev: seq<Node>, children: seq<Node>, kept: seq<string>, base: nat, parent: nat)
    requires NumberedFrom(prev, base)
    requires children == Children(kept, base + 1 + |prev|, parent)
    ensures NumberedFrom(prev + children, base)
  {
    var r := prev + children;
    forall i | |prev| <= i < |r|
      ensures r[i].id == base + 1 + i
    {
      assert r[i] == children[i - |prev|];
    }
  }

  /** The nodes the match branch adds are numbered on from `base + 1`, and the known keys only grow. */
  lemma BranchIds(batches: seq<seq<Candidate>>, parents: seq<Node>, seen: set<string>, base: nat, k: nat)
    requires k <= |batches| <= |parents|
    ensures seen <= Branch(batches, parents, seen, base + 1, k).known
    ensures NumberedFrom(Branch(batches, parents, seen, base + 1, k).nodes, base)
  {
    BranchKnownGrows(batches, parents, seen, base + 1, 0, k);
    BranchNumbered(batches, parents, seen, base, k);
  }

  /** The nodes the match branch adds for its first `k` parents are numbered on from `base + 1`. */
  lemma {:induction false} BranchNumbered(batches: seq<seq<Candidate>>, parents: seq<Node>, seen: set<string>, base: nat, k: nat)
    requires k <= |batches| <= |parents|
    ensures NumberedFrom(Branch(batches, parents, seen, base + 1, k).nodes, base)
    decreases k
  {
    if k > 0 {
      var g := Branch(batches, parents, seen, base + 1, k - 1);
      var children := Children(Kept(batches[k - 1], g.known, RawLower), base + 1 + |g.nodes|, parents[k - 1].id);
      assert NumberedFrom(g.nodes, base) by {
        BranchNumbered(batches, parents, seen, base, k - 1);
      }
      assert Branch(batches, parents, seen, base + 1, k).nodes == g.nodes + children by {
        BranchNext(batches, parents, seen, base + 1, k);
      }
      IdsStep(g.nodes, children, Kept(batches[k - 1], g.known, RawLower), base, parents[k - 1].id);
    }
  }

  /** Nodes from the replies of the first `k` parents, followed by the children of parent `k`. */
  lemma FromReplyStep(batches: seq<seq<Candidate>>, parents: seq<Node>, seen: set<string>, k: nat,
                      prev: seq<Node>, known: set<string>, firstId: nat, r: seq<Node>)
    requires k < |batches| <= |parents|
    requires seen <= known
    requires AllFromReply(prev, batches, parents, seen, k)
    requires r == prev + Children(Kept(batches[k], known, RawLower), firstId, parents[k].id)
    ensures AllFromReply(r, batches, parents, seen, k + 1)
  {
    ChildrenFromReply(batches, parents, seen, k, known, firstId);
    forall i | 0 <= i < |prev|
      ensures FromReply(prev[i], batches, parents, seen, k + 1)
    {
      FromReplyLater(prev[i], batches, parents, seen, k);
    }
    AppendFromReply(prev, Children(Kept(batches[k], known, RawLower), firstId, parents[k].id), batches, parents, seen, k + 1);
  }

  /**
    Every node the match branch adds for its first `k` parents hangs under one of those
    parents and is labelled with the trimmed form of a non-blank candidate of that
    parent's reply whose key was not known at the start.
   */
  lemma {:induction false} BranchFromReply(batches: seq<seq<Candidate>>, parents: seq<Node>, seen: set<string>, firstId: nat, k: nat)
    requires k <= |batches| <= |parents|
    ensures AllFromReply(Branch(batches, parents, seen, firstId, k).nodes, batches, parents, seen, k)
    decreases k
  {
    if k > 0 {
      var g := Branch(batches, parents, seen, firstId, k - 1);
      var kept := Kept(batches[k - 1], g.known, RawLower);
      assert AllFromReply(g.nodes, batches, parents, seen, k - 1) by {
        BranchFromReply(batches, parents, seen, firstId, k - 1);
      }
      assert seen <= g.known by {
        BranchKnownGrows(batches, parents, seen, firstId, 0, k - 1);
      }
      assert Branch(batches, parents, seen, firstId, k).nodes == g.nodes + Children(kept, firstId + |g.nodes|, parents[k - 1].id) by {
        BranchNext(batches, parents, seen, firstId, k);
      }
      FromReplyStep(batches, parents, seen, k - 1, g.nodes, g.known, firstId + |g.nodes|, Branch(batches, parents, seen, firstId, k).nodes);
    }
  }

  /** The keys known after `j` parents are known after every later parent too. */
  lemma {:induction false} BranchKnownGrows(batches: seq<seq<Candidate>>, parents: seq<Node>, seen: set<string>, firstId: nat, j: nat, k: nat)
    requires j <= k <= |batches| <= |parents|
    ensures Branch(batches, parents, seen, firstId, j).known <= Branch(batches, parents, seen, firstId, k).known
    decreases k
  {
    if j < k {
      var known := Branch(batches, parents, seen, firstId, k - 1).known;
      BranchKnownGrows(batches, parents, seen, firstId, j, k - 1);
      BranchNext(batches, parents, seen, firstId, k);
      SubsetOfUnion(Branch(batches, parents, seen, firstId, j).known, known, KeysOf(Kept(batches[k - 1], known, RawLower), RawLower));
    }
  }

  /** A set below `b` stays below `b` with more elements. */
  lemma SubsetOfUnion(a: set<string>, b: set<string>, more: set<string>)
    requires a <= b
    ensures a <= b + more
  {
  }

  /**
    One set of known keys is shared by all matching parents: a candidate in the reply
    for parent `j` is never added under a later parent `l`, whether or not it was added
    under `j`, and neither is any other candidate that differs from it only in letter case.
   */
  lemma FirstParentWins(batches: seq<seq<Candidate>>, parents: seq<Node>, seen: set<string>, firstId: nat,
                        j: nat, l: nat, v: string, w: string)
    requires j < l < |batches| <= |parents|
    requires Some(v) in batches[j]
    ensures v !in Kept(batches[l], Branch(batches, parents, seen, firstId, l).known, RawLower)
    ensures !Blank(v) && Lower(w) == Lower(v) ==>
      w !in Kept(batches[l], Branch(batches, parents, seen, firstId, l).known, RawLower)
  {
    var known := Branch(batches, parents, seen, firstId, l).known;
    if !Blank(v) {
      var after := j + 1;
      var g := Branch(batches, parents, seen, firstId, after - 1);
      assert Some(v) in batches[after - 1];
      KeptComplete(batches[after - 1], g.known, RawLower);
      BranchNext(batches, parents, seen, firstId, after);
      assert Key(RawLower, v) in g.known + KeysOf(Kept(batches[after - 1], g.known, RawLower), RawLower);
      BranchKnownGrows(batches, parents, seen, firstId, after, l);
    }
    KeptSound(batches[l], known, RawLower);
    assert Key(RawLower, v) == Lower(v);
    assert Key(RawLower, w) == Lower(w);
  }

  /** The match branch adds nothing when every usable candidate of every reply is already known. */
  lemma {:induction false} BranchNothingNew(batches: seq<seq<Candidate>>, parents: seq<Node>, seen: set<string>, firstId: nat, k: nat)
    requires k <= |batches| <= |parents|
    requires forall j, c :: 0 <= j < |batches| && c in batches[j] && Usable(c) ==> Lower(c.value) in seen
    ensures Branch(batches, parents, seen, firstId, k) == Grown([], seen)
    decreases k
  {
    if k > 0 {
      BranchNothingNew(batches, parents, seen, firstId, k - 1);
      BranchNext(batches, parents, seen, firstId, k);
      KeptNothingNew(batches[k - 1], seen, RawLower);
      assert Children([], firstId, parents[k - 1].id) == [];
      assert KeysOf([], RawLower) == {};
    }
  }

  /**
    When some labels contain the keyword but every usable candidate of every reply is
    already a lower-cased label of the list, the list is left as it was.
   */
  lemma MatchNothingNew(nodes: seq<Node>, mode: Mode, keyword: string, reply: nat -> Option<Body>)
    requires Matches(nodes, Lower(keyword)) != []
    requires forall k, c :: 0 <= k < |Matches(nodes, Lower(keyword))| && c in Replied(mode, reply, k) && Usable(c) ==>
      Lower(c.value) in LowerLabels(nodes)
    ensures SubsequentSearch(nodes, mode, keyword, reply) == nodes
  {
    var m := Matches(nodes, Lower(keyword));
    var batches := Batches(mode, reply, |m|);
    assert forall j :: 0 <= j < |m| ==> batches[j] == Replied(mode, reply, j);
    BranchNothingNew(batches, m, LowerLabels(nodes), MaxId(nodes) + 1, |m|);
    SubsequentMatch(nodes, mode, keyword, reply, m, []);
    assert nodes + [] == nodes;
  }

  /**
    A subsequent search never reaches its duplicate-root guard: a root whose label is
    the keyword, up to case, contains the keyword and so is a match.
   */
  lemma GuardUnreachable(nodes: seq<Node>, key: string)
    ensures HasRootLabelled(nodes, key) ==> Matches(nodes, key) != []
  {
    if HasRootLabelled(nodes, key) {
      var i :| 0 <= i < |nodes| && IsRootLabelled(nodes[i], key);
      assert OccursAt(Lower(nodes[i].url), key, 0);
      ContainsIffOccurs(Lower(nodes[i].url), key);
      MatchesSpec(nodes, key);
      assert nodes[i] in Matches(nodes, key);
    }
  }

  /**
    Appending nodes whose parents are found among the nodes before them (the old list or
    earlier new nodes) keeps the list a forest.
   */
  lemma ForestAppend(nodes: seq<Node>, added: seq<Node>)
    requires Forest(nodes)
    requires forall i :: 0 <= i < |added| && added[i].parentId.Some? ==> HasId(nodes + added[..i], added[i].parentId.value)
    ensures Forest(nodes + added)
  {
    var r := nodes + added;
    forall i | 0 <= i < |r| && r[i].parentId.Some?
      ensures HasId(r[..i], r[i].parentId.value)
    {
      if i < |nodes| {
        assert r[..i] == nodes[..i];
      } else {
        assert r[i] == added[i - |nodes|];
        assert r[..i] == nodes + added[..i - |nodes|];
      }
    }
  }

  // ----- Subsequent searches -----

  /**
    The match branch: the old list stays as it is, the new nodes are numbered on from
    the largest id, and each new node hangs under a matching node and is labelled with
    the trimmed form of a non-blank candidate from the reply for that node whose
    lower-cased untrimmed form was not a lower-cased label of the list.
   */
  lemma SubsequentMatchShape(nodes: seq<Node>, mode: Mode, keyword: string, reply: nat -> Option<Body>)
    requires Matches(nodes, Lower(keyword)) != []
    ensures var r := SubsequentSearch(nodes, mode, keyword, reply);
      var m := Matches(nodes, Lower(keyword));
      && |nodes| <= |r| && r[..|nodes|] == nodes
      && NumberedFrom(r[|nodes|..], MaxId(nodes))
      && forall i :: |nodes| <= i < |r| ==> FromReply(r[i], Batches(mode, reply, |m|), m, LowerLabels(nodes), |m|)
  {
    var m := Matches(nodes, Lower(keyword));
    var batches := Batches(mode, reply, |m|);
    var g := Branch(batches, m, LowerLabels(nodes), MaxId(nodes) + 1, |m|);
    var r := SubsequentSearch(nodes, mode, keyword, reply);
    assert r == nodes + g.nodes;
    BranchIds(batches, m, LowerLabels(nodes), MaxId(nodes), |m|);
    BranchFromReply(batches, m, LowerLabels(nodes), MaxId(nodes) + 1, |m|);
    assert r[..|nodes|] == nodes;
    assert r[|nodes|..] == g.nodes;
    forall i | |nodes| <= i < |r|
      ensures FromReply(r[i], batches, m, LowerLabels(nodes), |m|)
    {
      assert r[i] == g.nodes[i - |nodes|];
    }
  }

  /** In the match branch every new node's parent is a node of the list whose label contains the keyword. */
  lemma SubsequentMatchParents(nodes: seq<Node>, mode: Mode, keyword: string, reply: nat -> Option<Body>)
    requires Matches(nodes, Lower(keyword)) != []
    ensures var r := SubsequentSearch(nodes, mode, keyword, reply);
      forall i :: |nodes| <= i < |r| ==>
        exists p :: p in nodes && Contains(Lower(p.url), Lower(keyword)) && r[i].parentId == Some(p.id)
  {
    var m := Matches(nodes, Lower(keyword));
    var r := SubsequentSearch(nodes, mode, keyword, reply);
    SubsequentMatchShape(nodes, mode, keyword, reply);
    MatchesSpec(nodes, Lower(keyword));
    forall i | |nodes| <= i < |r|
      ensures exists p :: p in nodes && Contains(Lower(p.url), Lower(keyword)) && r[i].parentId == Some(p.id)
    {
      var batches := Batches(mode, reply, |m|);
      var j, v :| 0 <= j < |m| && Some(v) in batches[j] && !Blank(v) && Lower(v) !in LowerLabels(nodes) &&
        r[i].url == Trim(v) && r[i].parentId == Some(m[j].id);
      assert m[j] in m;
    }
  }

  /** A list, then children of `parent` numbered on from `firstId`: the layout every step appends. */
  lemma PrefixThenChildren(prefix: seq<Node>, kept: seq<string>, firstId: nat, parent: nat)
    ensures var r := prefix + Children(kept, firstId, parent);
      && |r| == |prefix| + |kept| && r[..|prefix|] == prefix
      && forall i :: |prefix| <= i < |r| ==> r[i] == Node(firstId + i - |prefix|, Trim(kept[i - |prefix|]), Some(parent))
  {
    var r := prefix + Children(kept, firstId, parent);
    assert r[..|prefix|] == prefix;
  }

  /** A list, then a new root one above `base`, then the root's children numbered on. */
  lemma RootThenChildren(nodes: seq<Node>, base: nat, url: string, kept: seq<string>, r: seq<Node>)
    requires r == nodes + [Node(base + 1, url, None)] + Children(kept, base + 2, base + 1)
    ensures |nodes| < |r| && r[..|nodes|] == nodes
    ensures r[|nodes|] == Node(base + 1, url, None)
    ensures NumberedFrom(r[|nodes|..], base)
    ensures forall i :: |nodes| < i < |r| ==> r[i] == Node(base + 1 + i - |nodes|, Trim(kept[i - |nodes| - 1]), Some(base + 1))
  {
    var updated := nodes + [Node(base + 1, url, None)];
    PrefixThenChildren(updated, kept, base + 2, base + 1);
    assert r[..|nodes|] == nodes;
  }

  /** The no-match branch appends a root labelled with the keyword and the reply's new candidates under it. */
  lemma NoMatchAppends(nodes: seq<Node>, mode: Mode, keyword: string, reply: nat -> Option<Body>)
    requires Matches(nodes, Lower(keyword)) == []
    ensures SubsequentSearch(nodes, mode, keyword, reply) ==
      nodes + [Node(MaxId(nodes) + 1, keyword, None)]
      + Children(Kept(Replied(mode, reply, 0), LowerLabels(nodes), RawLower), MaxId(nodes) + 2, MaxId(nodes) + 1)
  {
    GuardUnreachable(nodes, Lower(keyword));
    var cands := Replied(mode, reply, 0);
    SubsequentNoMatch(nodes, mode, keyword, reply, cands, MaxId(nodes) + 1,
      Children(Kept(cands, LowerLabels(nodes), RawLower), MaxId(nodes) + 2, MaxId(nodes) + 1));
  }

  /**
    The no-match branch: the old list stays as it is, then comes one new root labelled
    with the keyword and numbered one above the largest id, then its children, numbered
    on.
   */
  lemma SubsequentNoMatchShape(nodes: seq<Node>, mode: Mode, keyword: string, reply: nat -> Option<Body>)
    requires Matches(nodes, Lower(keyword)) == []
    ensures var r := SubsequentSearch(nodes, mode, keyword, reply);
      var rootId := MaxId(nodes) + 1;
      && |nodes| < |r| && r[..|nodes|] == nodes
      && r[|nodes|] == Node(rootId, keyword, None)
      && NumberedFrom(r[|nodes|..], MaxId(nodes))
      && (forall i :: |nodes| < i < |r| ==> r[i].parentId == Some(rootId))
  {
    NoMatchAppends(nodes, mode, keyword, reply);
    RootThenChildren(nodes, MaxId(nodes), keyword, Kept(Replied(mode, reply, 0), LowerLabels(nodes), RawLower),
      SubsequentSearch(nodes, mode, keyword, reply));
  }

  /** `n` is labelled with the trimmed form of a non-blank candidate whose key was not known. */
  ghost predicate LabelledFrom(n: Node, cands: seq<Candidate>, known: set<string>, kind: KeyKind) {
    exists v :: Some(v) in cands && !Blank(v) && Key(kind, v) !in known && n.url == Trim(v)
  }

  /**
    The children made from the accepted candidates: numbered on from `firstId` under
    `parent`, each labelled from a non-blank candidate whose key was not known.
   */
  lemma KeptChildren(cands: seq<Candidate>, known: set<string>, kind: KeyKind, firstId: nat, parent: nat)
    ensures var c := Children(Kept(cands, known, kind), firstId, parent);
      forall i :: 0 <= i < |c| ==>
        c[i].id == firstId + i && c[i].parentId == Some(parent) && LabelledFrom(c[i], cands, known, kind)
  {
    var kept := Kept(cands, known, kind);
    var c := Children(kept, firstId, parent);
    KeptSound(cands, known, kind);
    forall i | 0 <= i < |c|
      ensures LabelledFrom(c[i], cands, known, kind)
    {
      assert kept[i] in kept;
      assert Some(kept[i]) in cands && !Blank(kept[i]) && Key(kind, kept[i]) !in known && c[i].url == Trim(kept[i]);
    }
  }

  /**
    The children of the no-match branch: each is labelled with the trimmed form of a
    non-blank candidate of the reply whose lower-cased untrimmed form was not a
    lower-cased label of the list.
   */
  lemma SubsequentNoMatchLabels(nodes: seq<Node>, mode: Mode, keyword: string, reply: nat -> Option<Body>)
    requires Matches(nodes, Lower(keyword)) == []
    ensures var r := SubsequentSearch(nodes, mode, keyword, reply);
      forall i :: |nodes| < i < |r| ==> LabelledFrom(r[i], Replied(mode, reply, 0), LowerLabels(nodes), RawLower)
  {
    NoMatchAppends(nodes, mode, keyword, reply);
    RootChildrenLabels(nodes, Replied(mode, reply, 0), keyword, MaxId(nodes), SubsequentSearch(nodes, mode, keyword, reply));
  }

  /** The labels of a new root's children, on the list the no-match branch builds. */
  lemma RootChildrenLabels(nodes: seq<Node>, cands: seq<Candidate>, keyword: string, base: nat, r: seq<Node>)
    requires r == nodes + [Node(base + 1, keyword, None)] + Children(Kept(cands, LowerLabels(nodes), RawLower), base + 2, base + 1)
    ensures forall i :: |nodes| < i < |r| ==> LabelledFrom(r[i], cands, LowerLabels(nodes), RawLower)
  {
    var kept := Kept(cands, LowerLabels(nodes), RawLower);
    var c := Children(kept, base + 2, base + 1);
    KeptChildren(cands, LowerLabels(nodes), RawLower, base + 2, base + 1);
    RootThenChildren(nodes, base, keyword, kept, r);
    forall i | |nodes| < i < |r|
      ensures LabelledFrom(r[i], cands, LowerLabels(nodes), RawLower)
    {
      assert r[i] == c[i - |nodes| - 1];
    }
  }

  /** A subsequent search keeps ids unique and positive, and keeps the list a forest. */
  lemma SubsequentKeepsWellFormed(nodes: seq<Node>, mode: Mode, keyword: string, reply: nat -> Option<Body>)
    requires UniqueIds(nodes) && PositiveIds(nodes) && Forest(nodes)
    ensures var r := SubsequentSearch(nodes, mode, keyword, reply);
      UniqueIds(r) && PositiveIds(r) && Forest(r)
  {
    var r := SubsequentSearch(nodes, mode, keyword, reply);
    var added := r[|nodes|..];
    if Matches(nodes, Lower(keyword)) != [] {
      SubsequentMatchShape(nodes, mode, keyword, reply);
      SubsequentMatchParents(nodes, mode, keyword, reply);
      forall i | 0 <= i < |added| && added[i].parentId.Some?
        ensures HasId(nodes + added[..i], added[i].parentId.value)
      {
        assert added[i] == r[|nodes| + i];
        var p :| p in nodes && Contains(Lower(p.url), Lower(keyword)) && r[|nodes| + i].parentId == Some(p.id);
        var j :| 0 <= j < |nodes| && nodes[j] == p;
        assert (nodes + added[..i])[j] == p;
      }
    } else {
      SubsequentNoMatchShape(nodes, mode, keyword, reply);
      forall i | 0 <= i < |added| && added[i].parentId.Some?
        ensures HasId(nodes + added[..i], added[i].parentId.value)
      {
        assert added[i] == r[|nodes| + i];
        assert (nodes + added[..i])[|nodes|] == added[0];
      }
    }
    assert r == nodes + added;
    MaxIdSpec(nodes);
    FreshAppend(nodes, added, MaxId(nodes));
    ForestAppend(nodes, added);
  }

  // ----- The first search -----

  /**
    The first search makes one root with id 1 and hangs every other node under it, with
    ids 2, 3, ... in order. In keyword mode the root carries the keyword and there is one
    child per non-blank result, trimmed, repetitions included; in username mode the root
    carries the returned username, or the keyword, alone, when there is none.
   */
  lemma FirstSearchShape(mode: Mode, keyword: string, fetched: Option<Body>)
    ensures var r := FirstSearch(mode, keyword, fetched);
      && |r| >= 1 && r[0].parentId.None?
      && NumberedFrom(r, 0)
      && (forall i :: 1 <= i < |r| ==> r[i].parentId == Some(1))
      && (mode != Username ==>
            var results := NonBlank(SearchUrlsFrom(Keyword, fetched).urls);
            r[0].url == keyword && |r| == 1 + |results| &&
            forall i :: 1 <= i < |r| ==> r[i].url == Trim(results[i - 1]))
      && (mode == Username ==>
            var f := IdentityFields(SearchUrlsFrom(Username, fetched));
            && r[0].url == (if f.Some? && Truthy(f.value.username) then f.value.username.value else keyword)
            && (f.None? || !Truthy(f.value.username) ==> |r| == 1))
  {
    if mode == Username {
      var f := IdentityFields(SearchUrlsFrom(Username, fetched));
      if f.None? || !Truthy(f.value.username) {
        RootOver(keyword, []);
      } else {
        RootOver(f.value.username.value, Kept(SiteUrls(f.value.sitesFound.GetOr([])), {}, RawLower));
      }
    } else {
      var urls := SearchUrlsFrom(Keyword, fetched).urls;
      if urls == [] {
        assert NonBlank(urls) == [];
        RootOver(keyword, []);
      } else {
        RootOver(keyword, NonBlank(urls));
      }
    }
  }

  /** A root with id 1 followed by the children made from `kept`: ids 2, 3, ..., all under the root. */
  lemma RootOver(root: string, kept: seq<string>)
    ensures var r := [Node(1, root, None)] + Children(kept, 2, 1);
      && |r| == 1 + |kept| && r[0] == Node(1, root, None)
      && NumberedFrom(r, 0)
      && (forall i :: 1 <= i < |r| ==> r[i].parentId == Some(1) && r[i].url == Trim(kept[i - 1]))
  {
    var r := [Node(1, root, None)] + Children(kept, 2, 1);
    forall i | 1 <= i < |r|
      ensures r[i] == Children(kept, 2, 1)[i - 1]
    {
    }
  }

  /** The list after the first search has unique positive ids and is a forest. */
  lemma FirstSearchWellFormed(mode: Mode, keyword: string, fetched: Option<Body>)
    ensures var r := FirstSearch(mode, keyword, fetched);
      UniqueIds(r) && PositiveIds(r) && Forest(r)
  {
    var r := FirstSearch(mode, keyword, fetched);
    FirstSearchShape(mode, keyword, fetched);
    forall i | 0 <= i < |r| && r[i].parentId.Some?
      ensures HasId(r[..i], r[i].parentId.value)
    {
      assert r[..i][0] == r[0];
    }
  }

  /**
    The first keyword search does not deduplicate: a reply listing the same URL twice
    gives two children with the same label.
   */
  lemma FirstKeywordKeepsDuplicates()
    ensures FirstSearch(Keyword, "k", Some(ArrayBody([Text("a"), Text("a")]))) ==
      [Node(1, "k", None), Node(2, "a", Some(1)), Node(3, "a", Some(1))]
  {
    var urls := [Some("a"), Some("a")];
    assert SearchUrlsFrom(Keyword, Some(ArrayBody([Text("a"), Text("a")]))).urls == urls;
    TrimOfPlain("a");
    assert NonBlankUpTo(urls, 1) == ["a"];
    assert NonBlank(urls) == ["a", "a"];
  }

  /**
    The children of a username first search: one per accepted site URL, each labelled
    with the trimmed form of a non-blank site URL, and no two accepted site URLs share an
    untrimmed lower-cased key.
   */
  lemma FirstUsernameChildren(keyword: string, fetched: Option<Body>)
    requires var f := IdentityFields(SearchUrlsFrom(Username, fetched));
      f.Some? && Truthy(f.value.username)
    ensures var f := IdentityFields(SearchUrlsFrom(Username, fetched));
      var sites := SiteUrls(f.value.sitesFound.GetOr([]));
      var kept := Kept(sites, {}, RawLower);
      var r := FirstSearch(Username, keyword, fetched);
      && |r| == 1 + |kept| && DistinctKeys(kept, RawLower)
      && forall i :: 1 <= i < |r| ==> r[i].url == Trim(kept[i - 1]) && LabelledFrom(r[i], sites, {}, RawLower)
  {
    var f := IdentityFields(SearchUrlsFrom(Username, fetched));
    var sites := SiteUrls(f.value.sitesFound.GetOr([]));
    var kept := Kept(sites, {}, RawLower);
    var c := Children(kept, 2, 1);
    var r := FirstSearch(Username, keyword, fetched);
    assert r == [Node(1, f.value.username.value, None)] + c;
    RootOver(f.value.username.value, kept);
    KeptDistinct(sites, {}, RawLower);
    forall i | 1 <= i < |r|
      ensures LabelledFrom(r[i], sites, {}, RawLower)
    {
      assert r[i] == c[i - 1];
      KeptChildren(sites, {}, RawLower, 2, 1);
    }
  }

  /** A string whose first and last characters are not white space is its own trim. */
  lemma TrimOfPlain(s: string)
    requires |s| > 0 && !IsSpace(s[0]) && !IsSpace(s[|s| - 1])
    ensures Trim(s) == s
  {
    assert StartOf(s, 0) == 0;
    assert EndOf(s, 0, |s|) == |s|;
  }

  // ----- The email search -----

  /**
    The platform children of an email root: numbered on from `firstId` under `parent`,
    each labelled with a trimmed non-blank platform, whose lower-cased label is neither
    a known label nor the lower-cased label of another new child.
   */
  lemma PlatformChildren(platforms: seq<Candidate>, known: set<string>, firstId: nat, parent: nat)
    ensures var c := Children(Kept(platforms, known, TrimmedLower), firstId, parent);
      && (forall i :: 0 <= i < |c| ==> c[i].id == firstId + i && c[i].parentId == Some(parent))
      && (forall i :: 0 <= i < |c| ==> LabelledFrom(c[i], platforms, known, TrimmedLower))
      && (forall i :: 0 <= i < |c| ==> Lower(c[i].url) !in known)
      && (forall i, j :: 0 <= i < j < |c| ==> Lower(c[i].url) != Lower(c[j].url))
  {
    var kept := Kept(platforms, known, TrimmedLower);
    var c := Children(kept, firstId, parent);
    KeptChildren(platforms, known, TrimmedLower, firstId, parent);
    KeptSound(platforms, known, TrimmedLower);
    KeptDistinct(platforms, known, TrimmedLower);
    forall i | 0 <= i < |c|
      ensures Lower(c[i].url) !in known
    {
      assert kept[i] in kept && Key(TrimmedLower, kept[i]) == Lower(c[i].url);
    }
    forall i, j | 0 <= i < j < |c|
      ensures Lower(c[i].url) != Lower(c[j].url)
    {
      assert Key(TrimmedLower, kept[i]) == Lower(c[i].url);
      assert Key(TrimmedLower, kept[j]) == Lower(c[j].url);
    }
  }

  /**
    The email search when a root already carries the email, up to case: that root stays,
    its direct children go, the rest of the list stays in order, and the platforms are
    appended under the root, numbered on from the largest id of the list before the step.
   */
  lemma EmailReuseShape(nodes: seq<Node>, keyword: string, fetched: Option<Body>, root: Node)
    requires var data := IdentityFields(SearchUrlsFrom(Email, fetched));
      data.Some? && Truthy(data.value.email) && FindRoot(nodes, Lower(Trim(data.value.email.value))) == Some(root)
    ensures var r := EmailSearch(nodes, keyword, fetched);
      var kept := RemoveChildren(nodes, root.id);
      && root in kept
      && |kept| <= |r| && r[..|kept|] == kept
      && (forall n :: n in kept <==> n in nodes && n.parentId != Some(root.id))
      && (forall i :: 0 <= i <= |nodes| ==>
            kept == RemoveChildren(nodes[..i], root.id) + RemoveChildren(nodes[i..], root.id))
      && NumberedFrom(r[|kept|..], MaxId(nodes))
      && (forall i :: |kept| <= i < |r| ==> r[i].parentId == Some(root.id))
  {
    var data := IdentityFields(SearchUrlsFrom(Email, fetched));
    var email := Trim(data.value.email.value);
    var platforms := data.value.platformsFound.GetOr([]);
    var updated := RemoveChildren(nodes, root.id);
    var kept := Kept(platforms, LowerLabels(updated), TrimmedLower);
    assert && root in updated
           && (forall n :: n in updated <==> n in nodes && n.parentId != Some(root.id))
           && (forall i :: 0 <= i <= |nodes| ==>
                 updated == RemoveChildren(nodes[..i], root.id) + RemoveChildren(nodes[i..], root.id)) by {
      FindRootSpec(nodes, Lower(email));
      RemoveChildrenSpec(nodes, root.id);
    }
    EmailReusesRoot(nodes, keyword, fetched, data, email, platforms, root, updated, Children(kept, MaxId(nodes) + 1, root.id));
    PrefixThenChildren(updated, kept, MaxId(nodes) + 1, root.id);
  }

  /**
    The email search when no root carries the email: a new root labelled with the
    trimmed email, numbered one above the largest id, is appended, and the platforms
    after it as its children.
   */
  lemma EmailNewRootShape(nodes: seq<Node>, keyword: string, fetched: Option<Body>)
    requires var data := IdentityFields(SearchUrlsFrom(Email, fetched));
      data.Some? && Truthy(data.value.email) && FindRoot(nodes, Lower(Trim(data.value.email.value))).None?
    ensures var r := EmailSearch(nodes, keyword, fetched);
      var email := Trim(IdentityFields(SearchUrlsFrom(Email, fetched)).value.email.value);
      && |nodes| < |r| && r[..|nodes|] == nodes
      && r[|nodes|] == Node(MaxId(nodes) + 1, email, None)
      && NumberedFrom(r[|nodes|..], MaxId(nodes))
      && (forall i :: |nodes| < i < |r| ==> r[i].parentId == Some(MaxId(nodes) + 1))
  {
    var data := IdentityFields(SearchUrlsFrom(Email, fetched));
    var email := Trim(data.value.email.value);
    var platforms := data.value.platformsFound.GetOr([]);
    var base := MaxId(nodes);
    var updated := nodes + [Node(base + 1, email, None)];
    var kept := Kept(platforms, LowerLabels(updated), TrimmedLower);
    EmailAppendsRoot(nodes, keyword, fetched, data, email, platforms, base + 1, updated, Children(kept, base + 2, base + 1));
    RootThenChildren(nodes, base, email, kept, EmailSearch(nodes, keyword, fetched));
  }

  /**
    Platform children appended to a list: each is labelled from a non-blank platform,
    and its lower-cased label is that of no node of the list and of no other new child.
   */
  lemma PrefixPlatformLabels(prefix: seq<Node>, platforms: seq<Candidate>, firstId: nat, parent: nat, r: seq<Node>)
    requires r == prefix + Children(Kept(platforms, LowerLabels(prefix), TrimmedLower), firstId, parent)
    ensures forall i :: |prefix| <= i < |r| ==> LabelledFrom(r[i], platforms, LowerLabels(prefix), TrimmedLower)
    ensures forall i, j :: |prefix| <= i < j < |r| ==> Lower(r[i].url) != Lower(r[j].url)
    ensures forall i, j :: 0 <= i < |prefix| <= j < |r| ==> Lower(r[i].url) != Lower(r[j].url)
  {
    var kept := Kept(platforms, LowerLabels(prefix), TrimmedLower);
    var c := Children(kept, firstId, parent);
    PrefixThenChildren(prefix, kept, firstId, parent);
    PlatformChildren(platforms, LowerLabels(prefix), firstId, parent);
    forall i | |prefix| <= i < |r|
      ensures LabelledFrom(r[i], platforms, LowerLabels(prefix), TrimmedLower)
    {
      assert r[i] == c[i - |prefix|];
    }
    forall i, j | |prefix| <= i < j < |r|
      ensures Lower(r[i].url) != Lower(r[j].url)
    {
      assert r[i] == c[i - |prefix|] && r[j] == c[j - |prefix|];
    }
    forall i, j | 0 <= i < |prefix| <= j < |r|
      ensures Lower(r[i].url) != Lower(r[j].url)
    {
      assert r[i] == prefix[i] && prefix[i] in prefix;
      assert r[j] == c[j - |prefix|];
    }
  }

  /**
    The platforms an email search appends: each is labelled from a non-blank platform of
    the reply, and no two nodes of the list it keeps or builds share a lower-cased label
    with a new child, nor do two new children.
   */
  lemma EmailChildrenLabels(nodes: seq<Node>, keyword: string, fetched: Option<Body>)
    requires var data := IdentityFields(SearchUrlsFrom(Email, fetched));
      data.Some? && Truthy(data.value.email)
    ensures var data := IdentityFields(SearchUrlsFrom(Email, fetched));
      var email := Trim(data.value.email.value);
      var platforms := data.value.platformsFound.GetOr([]);
      var found := FindRoot(nodes, Lower(email));
      var prefix := if found.Some? then RemoveChildren(nodes, found.value.id) else nodes + [Node(MaxId(nodes) + 1, email, None)];
      var r := EmailSearch(nodes, keyword, fetched);
      && |prefix| <= |r| && r[..|prefix|] == prefix
      && (forall i :: |prefix| <= i < |r| ==> LabelledFrom(r[i], platforms, LowerLabels(prefix), TrimmedLower))
      && (forall i, j :: 0 <= i < j < |r| && |prefix| <= j ==> Lower(r[i].url) != Lower(r[j].url))
  {
    var data := IdentityFields(SearchUrlsFrom(Email, fetched));
    var email := Trim(data.value.email.value);
    var platforms := data.value.platformsFound.GetOr([]);
    var found := FindRoot(nodes, Lower(email));
    var r := EmailSearch(nodes, keyword, fetched);
    if found.Some? {
      var prefix := RemoveChildren(nodes, found.value.id);
      var c := Children(Kept(platforms, LowerLabels(prefix), TrimmedLower), MaxId(nodes) + 1, found.value.id);
      EmailReusesRoot(nodes, keyword, fetched, data, email, platforms, found.value, prefix, c);
      PrefixPlatformLabels(prefix, platforms, MaxId(nodes) + 1, found.value.id, r);
      assert r[..|prefix|] == prefix;
    } else {
      var prefix := nodes + [Node(MaxId(nodes) + 1, email, None)];
      var c := Children(Kept(platforms, LowerLabels(prefix), TrimmedLower), MaxId(nodes) + 2, MaxId(nodes) + 1);
      EmailAppendsRoot(nodes, keyword, fetched, data, email, platforms, MaxId(nodes) + 1, prefix, c);
      PrefixPlatformLabels(prefix, platforms, MaxId(nodes) + 2, MaxId(nodes) + 1, r);
      assert r[..|prefix|] == prefix;
    }
  }

  /** Dropping the children of a node keeps ids unique: the filter keeps each kept node once. */
  lemma {:induction false} RemoveChildrenUpToUnique(nodes: seq<Node>, id: nat, count: nat)
    requires count <= |nodes| && UniqueIds(nodes)
    ensures UniqueIds(RemoveChildrenUpTo(nodes, id, count))
  {
    if count > 0 {
      RemoveChildrenUpToUnique(nodes, id, count - 1);
      RemoveChildrenUpToSpec(nodes, id, count - 1);
      var prev := RemoveChildrenUpTo(nodes, id, count - 1);
      var n := nodes[count - 1];
      if n.parentId != Some(id) {
        var r := prev + [n];
        forall i, j | 0 <= i < j < |r|
          ensures r[i].id != r[j].id
        {
          if j == |prev| {
            assert prev[i] in prev;
            var k :| 0 <= k < count - 1 && nodes[k] == prev[i];
          }
        }
      }
    }
  }

  /**
    Appending nodes numbered on from the old maximum to a list drawn from the old nodes
    keeps ids unique and positive, and every node is old or has a fresh id.
   */
  lemma KeptPlusFresh(nodes: seq<Node>, prefix: seq<Node>, added: seq<Node>)
    requires PositiveIds(nodes) && UniqueIds(prefix)
    requires forall n :: n in prefix ==> n in nodes
    requires NumberedFrom(added, MaxId(nodes))
    ensures UniqueIds(prefix + added) && PositiveIds(prefix + added)
    ensures forall n :: n in prefix + added ==> n in nodes || n.id > MaxId(nodes)
  {
    MaxIdSpec(nodes);
    forall i | 0 <= i < |prefix|
      ensures prefix[i].id <= MaxId(nodes) && prefix[i].id >= 1
    {
      assert prefix[i] in prefix;
      var k :| 0 <= k < |nodes| && nodes[k] == prefix[i];
    }
    FreshAppend(prefix, added, MaxId(nodes));
    var r := prefix + added;
    forall n | n in r
      ensures n in nodes || n.id > MaxId(nodes)
    {
      var i :| 0 <= i < |r| && r[i] == n;
      if i >= |prefix| {
        assert added[i - |prefix|] == n;
      } else {
        assert prefix[i] == n && prefix[i] in prefix;
      }
    }
  }

  /**
    The email search keeps ids unique and positive, and every node it leaves is either
    an old node or has an id above every old id: the ids of removed children are never
    handed out again.
   */
  lemma EmailKeepsIds(nodes: seq<Node>, keyword: string, fetched: Option<Body>)
    requires UniqueIds(nodes) && PositiveIds(nodes)
    ensures var r := EmailSearch(nodes, keyword, fetched);
      && UniqueIds(r) && PositiveIds(r)
      && forall n :: n in r ==> n in nodes || n.id > MaxId(nodes)
  {
    var r := EmailSearch(nodes, keyword, fetched);
    var data := IdentityFields(SearchUrlsFrom(Email, fetched));
    if data.None? || !Truthy(data.value.email) {
      EmailWithoutAddress(nodes, keyword, fetched, data);
      var added := [Node(MaxId(nodes) + 1, keyword, None)];
      assert NumberedFrom(added, MaxId(nodes));
      KeptPlusFresh(nodes, nodes, added);
    } else {
      var found := FindRoot(nodes, Lower(Trim(data.value.email.value)));
      if found.Some? {
        EmailReuseShape(nodes, keyword, fetched, found.value);
        var prefix := RemoveChildren(nodes, found.value.id);
        RemoveChildrenUpToUnique(nodes, found.value.id, |nodes|);
        assert r == prefix + r[|prefix|..];
        KeptPlusFresh(nodes, prefix, r[|prefix|..]);
      } else {
        EmailNewRootShape(nodes, keyword, fetched);
        assert r == nodes + r[|nodes|..];
        KeptPlusFresh(nodes, nodes, r[|nodes|..]);
      }
    }
  }

  /** When the email search makes a new root, the list stays a forest. */
  lemma EmailNewRootKeepsForest(nodes: seq<Node>, keyword: string, fetched: Option<Body>)
    requires Forest(nodes)
    requires var data := IdentityFields(SearchUrlsFrom(Email, fetched));
      data.None? || !Truthy(data.value.email) || FindRoot(nodes, Lower(Trim(data.value.email.value))).None?
    ensures Forest(EmailSearch(nodes, keyword, fetched))
  {
    var r := EmailSearch(nodes, keyword, fetched);
    var data := IdentityFields(SearchUrlsFrom(Email, fetched));
    var added := r[|nodes|..];
    if data.None? || !Truthy(data.value.email) {
      assert r == nodes + added;
    } else {
      EmailNewRootShape(nodes, keyword, fetched);
      assert r == nodes + added;
      forall i | 0 <= i < |added| && added[i].parentId.Some?
        ensures HasId(nodes + added[..i], added[i].parentId.value)
      {
        assert added[i] == r[|nodes| + i];
        assert (nodes + added[..i])[|nodes|] == added[0];
      }
    }
    ForestAppend(nodes, added);
  }

  /**
    Re-querying an email whose root has grandchildren drops the root's children but not
    the grandchildren, whose parent id then names no node.
   */
  lemma EmailRequeryLeavesDanglingParent()
    ensures var nodes := [Node(1, "e", None), Node(2, "x", Some(1)), Node(3, "y", Some(2))];
      var r := EmailSearch(nodes, "e", Some(ObjectBody(Fields(None, None, None, None, Some("e"), None))));
      && Forest(nodes)
      && r == [Node(1, "e", None), Node(3, "y", Some(2))]
      && !ParentsResolve(r)
  {
    var nodes := [Node(1, "e", None), Node(2, "x", Some(1)), Node(3, "y", Some(2))];
    var kept := [Node(1, "e", None), Node(3, "y", Some(2))];
    EmailRequeryDropsChild(nodes, kept);
    assert nodes[..1] == [nodes[0]] && nodes[..2] == [nodes[0], nodes[1]];
    assert HasId(nodes[..1], 1) && HasId(nodes[..2], 2);
    assert kept[1].parentId.Some? && !HasId(kept, kept[1].parentId.value);
  }

  /** The computation behind `EmailRequeryLeavesDanglingParent`: the root `e` loses its child `x` only. */
  lemma EmailRequeryDropsChild(nodes: seq<Node>, kept: seq<Node>)
    requires nodes == [Node(1, "e", None), Node(2, "x", Some(1)), Node(3, "y", Some(2))]
    requires kept == [Node(1, "e", None), Node(3, "y", Some(2))]
    ensures EmailSearch(nodes, "e", Some(ObjectBody(Fields(None, None, None, None, Some("e"), None)))) == kept
  {
    var fetched := Some(ObjectBody(Fields(None, None, None, None, Some("e"), None)));
    var data := IdentityFields(SearchUrlsFrom(Email, fetched));
    assert data == Some(Fields(None, None, None, None, Some("e"), None));
    TrimOfPlain("e");
    var root := nodes[0];
    assert Lower("e") == "e" by {
      assert LowerChar('e') == 'e';
    }
    assert IsRootLabelled(root, "e");
    assert FindRoot(nodes, "e") == Some(root);
    assert RemoveChildrenUpTo(nodes, 1, 1) == [root];
    assert RemoveChildrenUpTo(nodes, 1, 2) == [root];
    assert RemoveChildren(nodes, 1) == kept;
    assert Kept([], LowerLabels(kept), TrimmedLower) == [];
    EmailReusesRoot(nodes, "e", fetched, data, "e", [], root, kept, []);
  }

  // ----- One search, whatever its mode -----

  /**
    A subsequent search keeps the old list as its prefix and numbers what it appends on
    from the old maximum id.
   */
  lemma SubsequentAppends(nodes: seq<Node>, mode: Mode, keyword: string, reply: nat -> Option<Body>)
    ensures var r := SubsequentSearch(nodes, mode, keyword, reply);
      |nodes| <= |r| && r[..|nodes|] == nodes && NumberedFrom(r[|nodes|..], MaxId(nodes))
  {
    if Matches(nodes, Lower(keyword)) != [] {
      SubsequentMatchShape(nodes, mode, keyword, reply);
    } else {
      SubsequentNoMatchShape(nodes, mode, keyword, reply);
    }
  }

  /**
    Any search keeps ids unique and positive, and hands out only ids above every old
    one. Keyword and username searches keep the old list as a prefix of the new one.
   */
  lemma SearchKeepsIds(nodes: seq<Node>, mode: Mode, raw: Option<string>, reply: nat -> Option<Body>)
    requires UniqueIds(nodes) && PositiveIds(nodes)
    ensures var r := Search(nodes, mode, raw, reply);
      && UniqueIds(r) && PositiveIds(r)
      && (forall n :: n in r ==> n in nodes || n.id > MaxId(nodes))
      && (mode != Email ==> |nodes| <= |r| && r[..|nodes|] == nodes)
  {
    var r := Search(nodes, mode, raw, reply);
    var trimmed := Trim(raw.GetOr(""));
    if |trimmed| == 0 {
    } else if mode == Email {
      EmailKeepsIds(nodes, trimmed, reply(0));
    } else if nodes == [] {
      FirstSearchWellFormed(mode, trimmed, reply(0));
      FirstSearchShape(mode, trimmed, reply(0));
      assert MaxId(nodes) == 0;
      assert r == nodes + r;
      KeptPlusFresh(nodes, nodes, r);
    } else {
      SubsequentAppends(nodes, mode, trimmed, reply);
      assert r == nodes + r[|nodes|..];
      KeptPlusFresh(nodes, nodes, r[|nodes|..]);
    }
  }

  /**
    Keyword and username searches keep the list a forest: every child is added after its
    parent. (An email search that reuses a root can break this; see
    `EmailRequeryLeavesDanglingParent`.)
   */
  lemma SearchKeepsForest(nodes: seq<Node>, mode: Mode, raw: Option<string>, reply: nat -> Option<Body>)
    requires Forest(nodes) && UniqueIds(nodes) && PositiveIds(nodes)
    requires mode != Email
    ensures Forest(Search(nodes, mode, raw, reply))
  {
    var trimmed := Trim(raw.GetOr(""));
    if |trimmed| == 0 {
    } else if nodes == [] {
      FirstSearchWellFormed(mode, trimmed, reply(0));
    } else {
      SubsequentKeepsWellFormed(nodes, mode, trimmed, reply);
    }
  }

  /**
    The duplicate check of a subsequent search looks up the candidate as received while
    the node stores it trimmed: a reply of `" x"` to a list already labelled `x` adds a
    second `x`.
   */
  lemma UntrimmedKeyDuplicatesLabel()
    ensures SubsequentSearch([Node(1, "x", None)], Keyword, "k", _ => Some(ArrayBody([Text(" x")]))) ==
      [Node(1, "x", None), Node(2, "k", None), Node(3, "x", Some(2))]
  {
    var nodes := [Node(1, "x", None)];
    var reply: nat -> Option<Body> := _ => Some(ArrayBody([Text(" x")]));
    assert Lower("x") == "x" by {
      assert LowerChar('x') == 'x';
    }
    assert Lower("k") == "k" by {
      assert LowerChar('k') == 'k';
    }
    assert Lower(" x") == " x" by {
      assert LowerChar(' ') == ' ' && LowerChar('x') == 'x';
    }
    assert !Contains("x", "k") by {
      assert "x"[0] != "k"[0];
      assert !ContainsFrom("x", "k", 1);
    }
    assert MatchesUpTo(nodes, "k", 1) == [];
    assert !IsRootLabelled(nodes[0], "k");
    assert StartOf(" x", 1) == 1;
    assert EndOf(" x", 1, 2) == 2;
    assert Trim(" x") == "x";
    assert !Blank(" x");
    assert LowerLabels(nodes) == {"x"};
    var cands := [Some(" x")];
    assert Replied(Keyword, reply, 0) == cands;
    assert KeptPrefix(cands, {"x"}, RawLower, 1) == [" x"];
    SubsequentNoMatch(nodes, Keyword, "k", reply, cands, 2, [Node(3, "x", Some(2))]);
  }
}
