/**
  What one search step does to the node list, as functions of the list before the step
  and of the backend's replies. These are the specifications that the handler methods of
  `NodeMapState.NodeMap` are proved against; `HandlerLemmas` proves what they promise.
 */
module Handlers {
  import opened Wrappers
  import opened Text
  import opened Adapter
  import opened Graph
  import opened Dedup

  /** The lower-cased labels of the list: the set of known keys a step starts from. */
  function LowerLabels(nodes: seq<Node>): set<string> {
    set n | n in nodes :: Lower(n.url)
  }

  /** The id the next new node gets: one above the largest id so far. */
  function NextId(nodes: seq<Node>): nat {
    MaxId(nodes) + 1
  }

  /** The site URLs of a username reply (`url_user || url_main` for each site). */
  function SiteUrls(sites: seq<UrlFields>): (r: seq<Candidate>)
    ensures |r| == |sites|
  {
    seq(|sites|, i requires 0 <= i < |sites| => SiteUrl(sites[i]))
  }

  /** `.filter(Boolean)` over the first `n` values. */
  function TruthiesUpTo(cs: seq<Candidate>, n: nat): seq<Candidate>
    requires n <= |cs|
  {
    if n == 0 then []
    else TruthiesUpTo(cs, n - 1) + (if Truthy(cs[n - 1]) then [cs[n - 1]] else [])
  }

  /** `.filter(Boolean)`: the truthy values, in order. */
  function Truthies(cs: seq<Candidate>): seq<Candidate> {
    TruthiesUpTo(cs, |cs|)
  }

  /** The filter over the first `n` values keeps exactly the truthy ones among them. */
  lemma {:induction false} TruthiesUpToSpec(cs: seq<Candidate>, n: nat)
    requires n <= |cs|
    ensures forall c :: c in TruthiesUpTo(cs, n) <==> (exists i :: 0 <= i < n && cs[i] == c) && Truthy(c)
  {
    if n > 0 {
      TruthiesUpToSpec(cs, n - 1);
    }
  }

  /** Filtering the first `n` values of `a + b`, for `n` within `a`, filters those of `a`. */
  lemma {:induction false} TruthiesUpToPrefix(a: seq<Candidate>, b: seq<Candidate>, n: nat)
    requires n <= |a|
    ensures TruthiesUpTo(a + b, n) == TruthiesUpTo(a, n)
  {
    if n > 0 {
      TruthiesUpToPrefix(a, b, n - 1);
      assert (a + b)[n - 1] == a[n - 1];
    }
  }

  /** Filtering `a` and then the first `m` values of `b` is filtering the first `|a| + m` values of `a + b`. */
  lemma {:induction false} TruthiesUpToAppend(a: seq<Candidate>, b: seq<Candidate>, m: nat)
    requires m <= |b|
    ensures TruthiesUpTo(a + b, |a| + m) == Truthies(a) + TruthiesUpTo(b, m)
  {
    if m == 0 {
      TruthiesUpToPrefix(a, b, |a|);
    } else {
      TruthiesUpToAppend(a, b, m - 1);
      assert (a + b)[|a| + m - 1] == b[m - 1];
    }
  }

  /**
    `.filter(Boolean)` keeps exactly the truthy values, in order and with repetitions:
    the filter of a list cut anywhere is that of the front followed by that of the back,
    and a single value is kept exactly when it is truthy.
   */
  lemma TruthiesSpec(cs: seq<Candidate>)
    ensures forall c :: c in Truthies(cs) <==> c in cs && Truthy(c)
    ensures forall i :: 0 <= i <= |cs| ==> Truthies(cs) == Truthies(cs[..i]) + Truthies(cs[i..])
    ensures forall c :: Truthies([c]) == if Truthy(c) then [c] else []
  {
    forall i | 0 <= i <= |cs|
      ensures Truthies(cs) == Truthies(cs[..i]) + Truthies(cs[i..])
    {
      SplitJoin(cs, i);
      TruthiesUpToAppend(cs[..i], cs[i..], |cs| - i);
    }
    forall c
      ensures Truthies([c]) == if Truthy(c) then [c] else []
    {
      assert TruthiesUpTo([c], 0) == [];
    }
    TruthiesUpToSpec(cs, |cs|);
  }

  // ----- The first search (empty list, keyword or username mode) -----

  /**
    The list after the first search. Username mode: a root labelled with the returned
    username (or the typed keyword when there is none) with one child per site URL, the
    duplicate check starting from an empty set. Keyword mode: a root labelled with the
    keyword and one child per non-blank result, with no duplicate check at all.
   */
  function FirstSearch(mode: Mode, keyword: string, fetched: Option<Body>): seq<Node> {
    if mode == Username then
      match IdentityFields(SearchUrlsFrom(Username, fetched))
      case None => [Node(1, keyword, None)]
      case Some(f) =>
        if !Truthy(f.username) then [Node(1, keyword, None)]
        else [Node(1, f.username.value, None)] + Children(Kept(SiteUrls(f.sitesFound.GetOr([])), {}, RawLower), 2, 1)
    else
      var urls := SearchUrlsFrom(Keyword, fetched).urls;
      if urls == [] then [Node(1, keyword, None)]
      else [Node(1, keyword, None)] + Children(NonBlank(urls), 2, 1)
  }

  // ----- Subsequent searches (non-empty list, keyword or username mode) -----

  /** The nodes among the first `count` whose lower-cased label contains `key`. */
  function MatchesUpTo(nodes: seq<Node>, key: string, count: nat): seq<Node>
    requires count <= |nodes|
  {
    if count == 0 then []
    else
      var n := nodes[count - 1];
      MatchesUpTo(nodes, key, count - 1) + (if Contains(Lower(n.url), key) then [n] else [])
  }

  /** The nodes whose lower-cased label contains `key`, in list order. */
  function Matches(nodes: seq<Node>, key: string): seq<Node> {
    MatchesUpTo(nodes, key, |nodes|)
  }

  /** The filter over the first `count` nodes keeps exactly the matching ones among them. */
  lemma {:induction false} MatchesUpToSpec(nodes: seq<Node>, key: string, count: nat)
    requires count <= |nodes|
    ensures |MatchesUpTo(nodes, key, count)| <= count
    ensures forall n :: n in MatchesUpTo(nodes, key, count) <==>
      (exists i :: 0 <= i < count && nodes[i] == n) && Contains(Lower(n.url), key)
  {
    if count > 0 {
      MatchesUpToSpec(nodes, key, count - 1);
    }
  }

  /** Filtering the first `n` nodes of `a + b`, for `n` within `a`, filters those of `a`. */
  lemma {:induction false} MatchesUpToPrefix(a: seq<Node>, b: seq<Node>, key: string, n: nat)
    requires n <= |a|
    ensures MatchesUpTo(a + b, key, n) == MatchesUpTo(a, key, n)
  {
    if n > 0 {
      MatchesUpToPrefix(a, b, key, n - 1);
      assert (a + b)[n - 1] == a[n - 1];
    }
  }

  /** Filtering `a` and then the first `m` nodes of `b` is filtering the first `|a| + m` nodes of `a + b`. */
  lemma {:induction false} MatchesUpToAppend(a: seq<Node>, b: seq<Node>, key: string, m: nat)
    requires m <= |b|
    ensures MatchesUpTo(a + b, key, |a| + m) == Matches(a, key) + MatchesUpTo(b, key, m)
  {
    if m == 0 {
      MatchesUpToPrefix(a, b, key, |a|);
    } else {
      MatchesUpToAppend(a, b, key, m - 1);
      assert (a + b)[|a| + m - 1] == b[m - 1];
    }
  }

  /** A single node is kept exactly when it matches. */
  lemma MatchesSingle(n: Node, key: string)
    ensures Matches([n], key) == if Contains(Lower(n.url), key) then [n] else []
  {
    assert MatchesUpTo([n], key, 0) == [];
  }

  /**
    The matching nodes are exactly the nodes of the list whose lower-cased label contains
    `key`, in list order: the filter of a list split anywhere is the filter of the front
    followed by that of the back, and a single node is kept exactly when it matches.
   */
  lemma MatchesSpec(nodes: seq<Node>, key: string)
    ensures |Matches(nodes, key)| <= |nodes|
    ensures forall n :: n in Matches(nodes, key) <==> n in nodes && Contains(Lower(n.url), key)
    ensures forall i :: 0 <= i <= |nodes| ==>
      Matches(nodes, key) == Matches(nodes[..i], key) + Matches(nodes[i..], key)
    ensures forall i :: 0 <= i < |nodes| ==>
      Matches([nodes[i]], key) == if Contains(Lower(nodes[i].url), key) then [nodes[i]] else []
  {
    forall i | 0 <= i <= |nodes|
      ensures Matches(nodes, key) == Matches(nodes[..i], key) + Matches(nodes[i..], key)
    {
      SplitJoin(nodes, i);
      MatchesUpToAppend(nodes[..i], nodes[i..], key, |nodes| - i);
    }
    forall i | 0 <= i < |nodes|
      ensures Matches([nodes[i]], key) == if Contains(Lower(nodes[i].url), key) then [nodes[i]] else []
    {
      MatchesSingle(nodes[i], key);
    }
    MatchesUpToSpec(nodes, key, |nodes|);
  }

  /** Some root's lower-cased label is `key`. */
  predicate HasRootLabelled(nodes: seq<Node>, key: string) {
    exists i :: 0 <= i < |nodes| && IsRootLabelled(nodes[i], key)
  }

  /**
    The candidates a subsequent search reads from one reply: the truthy site URLs in
    username mode, the list itself in keyword mode, nothing otherwise.
   */
  function ReplyUrls(mode: Mode, l: Lookup): seq<Candidate> {
    if mode == Username && IdentityFields(l).Some? && IdentityFields(l).value.sitesFound.Some? then
      Truthies(SiteUrls(IdentityFields(l).value.sitesFound.value))
    else if mode == Keyword && l.Urls? then l.urls
    else []
  }

  /** The candidates of the reply to call number `k` of the step. */
  function Replied(mode: Mode, reply: nat -> Option<Body>, k: nat): seq<Candidate> {
    ReplyUrls(mode, SearchUrlsFrom(mode, reply(k)))
  }

  /** The candidates of the replies to the first `n` calls of a step, call by call. */
  function Batches(mode: Mode, reply: nat -> Option<Body>, n: nat): (r: seq<seq<Candidate>>)
    ensures |r| == n
  {
    seq(n, k requires 0 <= k < n => Replied(mode, reply, k))
  }

  /** The nodes a step has added so far, and the keys known at that point. */
  datatype Grown = Grown(nodes: seq<Node>, known: set<string>)

  /**
    The match branch after its first `k` matching parents: parent `j` gets the accepted
    candidates of batch `j` as children, numbered on from `firstId`, and one set of known
    keys, starting from `seen`, is shared by all parents.
   */
  function Branch(batches: seq<seq<Candidate>>, parents: seq<Node>, seen: set<string>, firstId: nat, k: nat): Grown
    requires k <= |batches| <= |parents|
  {
    if k == 0 then Grown([], seen)
    else
      var g := Branch(batches, parents, seen, firstId, k - 1);
      var kept := Kept(batches[k - 1], g.known, RawLower);
      Grown(g.nodes + Children(kept, firstId + |g.nodes|, parents[k - 1].id), g.known + KeysOf(kept, RawLower))
  }

  /**
    One more matching parent: its accepted candidates `kept` become `children`, numbered
    on from the nodes already added, and their keys become known.
   */
  lemma {:induction false} BranchStep(batches: seq<seq<Candidate>>, parents: seq<Node>, seen: set<string>, firstId: nat, k: nat,
                                      nodes: seq<Node>, known: set<string>, kept: seq<string>, children: seq<Node>)
    requires k < |batches| <= |parents|
    requires Grown(nodes, known) == Branch(batches, parents, seen, firstId, k)
    requires kept == Kept(batches[k], known, RawLower)
    requires children == Children(kept, firstId + |nodes|, parents[k].id)
    ensures Branch(batches, parents, seen, firstId, k + 1) == Grown(nodes + children, known + KeysOf(kept, RawLower))
  {
  }

  /**
    The list after a subsequent search for `keyword`. When some labels contain it, every
    such node gets the new candidates of its own reply as children. When none does, a
    new root labelled with the keyword is appended with the reply's new candidates as its
    children (unless a root already carries that label).
   */
  function SubsequentSearch(nodes: seq<Node>, mode: Mode, keyword: string, reply: nat -> Option<Body>): seq<Node> {
    var key := Lower(keyword);
    var matches := Matches(nodes, key);
    var next := NextId(nodes);
    if matches == [] then
      if HasRootLabelled(nodes, key) then nodes
      else
        var kept := Kept(Replied(mode, reply, 0), LowerLabels(nodes), RawLower);
        nodes + [Node(next, keyword, None)] + Children(kept, next + 1, next)
    else
      nodes + Branch(Batches(mode, reply, |matches|), matches, LowerLabels(nodes), next, |matches|).nodes
  }

  /** The no-match branch of a subsequent search, in the terms of the handler. */
  lemma SubsequentNoMatch(nodes: seq<Node>, mode: Mode, keyword: string, reply: nat -> Option<Body>, cands: seq<Candidate>, rootId: nat, children: seq<Node>)
    requires Matches(nodes, Lower(keyword)) == [] && !HasRootLabelled(nodes, Lower(keyword))
    requires rootId == MaxId(nodes) + 1
    requires cands == Replied(mode, reply, 0)
    requires children == Children(Kept(cands, LowerLabels(nodes), RawLower), rootId + 1, rootId)
    ensures SubsequentSearch(nodes, mode, keyword, reply) == nodes + [Node(rootId, keyword, None)] + children
  {
  }

  /** The match branch of a subsequent search, in the terms of the handler. */
  lemma SubsequentMatch(nodes: seq<Node>, mode: Mode, keyword: string, reply: nat -> Option<Body>, matches: seq<Node>, newNodes: seq<Node>)
    requires matches == Matches(nodes, Lower(keyword)) && matches != []
    requires newNodes == Branch(Batches(mode, reply, |matches|), matches, LowerLabels(nodes), MaxId(nodes) + 1, |matches|).nodes
    ensures SubsequentSearch(nodes, mode, keyword, reply) == nodes + newNodes
  {
  }

  // ----- The email search -----

  /** A root labelled `key`, up to case. */
  predicate IsRootLabelled(n: Node, key: string) {
    n.parentId.None? && Lower(n.url) == key
  }

  /** `find` from position `i` on. */
  function FindRootFrom(nodes: seq<Node>, key: string, i: nat): Option<Node>
    requires i <= |nodes|
    decreases |nodes| - i
  {
    if i == |nodes| then None
    else if IsRootLabelled(nodes[i], key) then Some(nodes[i])
    else FindRootFrom(nodes, key, i + 1)
  }

  /** The first root whose lower-cased label is `key`. */
  function FindRoot(nodes: seq<Node>, key: string): Option<Node> {
    FindRootFrom(nodes, key, 0)
  }

  /** The search from `i` returns the first root labelled `key` at or after `i`, if any. */
  lemma {:induction false} FindRootFromSpec(nodes: seq<Node>, key: string, i: nat)
    requires i <= |nodes|
    ensures var r := FindRootFrom(nodes, key, i);
      && (r.Some? ==> exists j :: i <= j < |nodes| && nodes[j] == r.value && IsRootLabelled(nodes[j], key)
                        && forall m :: i <= m < j ==> !IsRootLabelled(nodes[m], key))
      && (r.None? <==> forall j :: i <= j < |nodes| ==> !IsRootLabelled(nodes[j], key))
    decreases |nodes| - i
  {
    if i < |nodes| && !IsRootLabelled(nodes[i], key) {
      FindRootFromSpec(nodes, key, i + 1);
    }
  }

  /**
    `find` returns the first root of the list labelled `key`, and finds none exactly when
    there is none.
   */
  lemma FindRootSpec(nodes: seq<Node>, key: string)
    ensures var r := FindRoot(nodes, key);
      && (r.Some? ==> exists j :: 0 <= j < |nodes| && nodes[j] == r.value && IsRootLabelled(nodes[j], key)
                        && forall m :: 0 <= m < j ==> !IsRootLabelled(nodes[m], key))
      && (r.None? <==> !HasRootLabelled(nodes, key))
  {
    FindRootFromSpec(nodes, key, 0);
  }

  /** The first `count` nodes without the direct children of node `id`. */
  function RemoveChildrenUpTo(nodes: seq<Node>, id: nat, count: nat): seq<Node>
    requires count <= |nodes|
  {
    if count == 0 then []
    else
      var n := nodes[count - 1];
      RemoveChildrenUpTo(nodes, id, count - 1) + (if n.parentId != Some(id) then [n] else [])
  }

  /** The list without the direct children of node `id`, in order. */
  function RemoveChildren(nodes: seq<Node>, id: nat): seq<Node> {
    RemoveChildrenUpTo(nodes, id, |nodes|)
  }

  /** The filter over the first `count` nodes keeps exactly those whose parent is not `id`. */
  lemma {:induction false} RemoveChildrenUpToSpec(nodes: seq<Node>, id: nat, count: nat)
    requires count <= |nodes|
    ensures |RemoveChildrenUpTo(nodes, id, count)| <= count
    ensures forall n :: n in RemoveChildrenUpTo(nodes, id, count) <==>
      (exists i :: 0 <= i < count && nodes[i] == n) && n.parentId != Some(id)
  {
    if count > 0 {
      RemoveChildrenUpToSpec(nodes, id, count - 1);
    }
  }

  /** Filtering the first `n` nodes of `a + b`, for `n` within `a`, filters those of `a`. */
  lemma {:induction false} RemoveChildrenUpToPrefix(a: seq<Node>, b: seq<Node>, id: nat, n: nat)
    requires n <= |a|
    ensures RemoveChildrenUpTo(a + b, id, n) == RemoveChildrenUpTo(a, id, n)
  {
    if n > 0 {
      RemoveChildrenUpToPrefix(a, b, id, n - 1);
      assert (a + b)[n - 1] == a[n - 1];
    }
  }

  /** Filtering `a` and then the first `m` nodes of `b` is filtering the first `|a| + m` nodes of `a + b`. */
  lemma {:induction false} RemoveChildrenUpToAppend(a: seq<Node>, b: seq<Node>, id: nat, m: nat)
    requires m <= |b|
    ensures RemoveChildrenUpTo(a + b, id, |a| + m) == RemoveChildren(a, id) + RemoveChildrenUpTo(b, id, m)
  {
    if m == 0 {
      RemoveChildrenUpToPrefix(a, b, id, |a|);
    } else {
      RemoveChildrenUpToAppend(a, b, id, m - 1);
      assert (a + b)[|a| + m - 1] == b[m - 1];
    }
  }

  /** A single node is kept exactly when its parent is not `id`. */
  lemma RemoveChildrenSingle(n: Node, id: nat)
    ensures RemoveChildren([n], id) == if n.parentId != Some(id) then [n] else []
  {
    assert RemoveChildrenUpTo([n], id, 0) == [];
  }

  /**
    The filter keeps exactly the nodes whose parent is not `id`, in list order: the filter
    of a list split anywhere is the filter of the front followed by that of the back, and
    a single node is kept exactly when its parent is not `id`.
   */
  lemma RemoveChildrenSpec(nodes: seq<Node>, id: nat)
    ensures |RemoveChildren(nodes, id)| <= |nodes|
    ensures forall n :: n in RemoveChildren(nodes, id) <==> n in nodes && n.parentId != Some(id)
    ensures forall i :: 0 <= i <= |nodes| ==>
      RemoveChildren(nodes, id) == RemoveChildren(nodes[..i], id) + RemoveChildren(nodes[i..], id)
    ensures forall i :: 0 <= i < |nodes| ==>
      RemoveChildren([nodes[i]], id) == if nodes[i].parentId != Some(id) then [nodes[i]] else []
  {
    forall i | 0 <= i <= |nodes|
      ensures RemoveChildren(nodes, id) == RemoveChildren(nodes[..i], id) + RemoveChildren(nodes[i..], id)
    {
      SplitJoin(nodes, i);
      RemoveChildrenUpToAppend(nodes[..i], nodes[i..], id, |nodes| - i);
    }
    forall i | 0 <= i < |nodes|
      ensures RemoveChildren([nodes[i]], id) == if nodes[i].parentId != Some(id) then [nodes[i]] else []
    {
      RemoveChildrenSingle(nodes[i], id);
    }
    RemoveChildrenUpToSpec(nodes, id, |nodes|);
  }

  /**
    The list after an email search. Without an email in the reply, a bare root labelled
    with the keyword is appended. Otherwise the root labelled with the trimmed email is
    reused (and its direct children removed) or appended, and the platforms become its
    children, checked for duplicates by trimmed lower-cased name.
   */
  function EmailSearch(nodes: seq<Node>, keyword: string, fetched: Option<Body>): seq<Node> {
    var data := IdentityFields(SearchUrlsFrom(Email, fetched));
    var next := NextId(nodes);
    if data.None? || !Truthy(data.value.email) then nodes + [Node(next, keyword, None)]
    else
      var email := Trim(data.value.email.value);
      var platforms := data.value.platformsFound.GetOr([]);
      match FindRoot(nodes, Lower(email))
      case Some(root) =>
        var updated := RemoveChildren(nodes, root.id);
        updated + Children(Kept(platforms, LowerLabels(updated), TrimmedLower), next, root.id)
      case None =>
        var updated := nodes + [Node(next, email, None)];
        updated + Children(Kept(platforms, LowerLabels(updated), TrimmedLower), next + 1, next)
  }

  /** An email reply without an email appends a bare root labelled with the keyword. */
  lemma EmailWithoutAddress(nodes: seq<Node>, keyword: string, fetched: Option<Body>, data: Option<Fields>)
    requires data == IdentityFields(SearchUrlsFrom(Email, fetched))
    requires data.None? || !Truthy(data.value.email)
    ensures EmailSearch(nodes, keyword, fetched) == nodes + [Node(MaxId(nodes) + 1, keyword, None)]
  {
  }

  /** The email search when a root already carries the email, in the terms of the handler. */
  lemma EmailReusesRoot(nodes: seq<Node>, keyword: string, fetched: Option<Body>, data: Option<Fields>,
                        email: string, platforms: seq<Candidate>, root: Node, updated: seq<Node>, children: seq<Node>)
    requires data == IdentityFields(SearchUrlsFrom(Email, fetched))
    requires data.Some? && Truthy(data.value.email)
    requires email == Trim(data.value.email.value) && platforms == data.value.platformsFound.GetOr([])
    requires FindRoot(nodes, Lower(email)) == Some(root)
    requires updated == RemoveChildren(nodes, root.id)
    requires children == Children(Kept(platforms, LowerLabels(updated), TrimmedLower), MaxId(nodes) + 1, root.id)
    ensures EmailSearch(nodes, keyword, fetched) == updated + children
  {
    assert NextId(nodes) == MaxId(nodes) + 1;
  }

  /** The email search when no root carries the email, in the terms of the handler. */
  lemma EmailAppendsRoot(nodes: seq<Node>, keyword: string, fetched: Option<Body>, data: Option<Fields>,
                         email: string, platforms: seq<Candidate>, rootId: nat, updated: seq<Node>, children: seq<Node>)
    requires data == IdentityFields(SearchUrlsFrom(Email, fetched))
    requires data.Some? && Truthy(data.value.email)
    requires email == Trim(data.value.email.value) && platforms == data.value.platformsFound.GetOr([])
    requires FindRoot(nodes, Lower(email)).None?
    requires rootId == MaxId(nodes) + 1
    requires updated == nodes + [Node(rootId, email, None)]
    requires children == Children(Kept(platforms, LowerLabels(updated), TrimmedLower), rootId + 1, rootId)
    ensures EmailSearch(nodes, keyword, fetched) == updated + children
  {
  }

  // ----- The dispatcher -----

  /**
    `runSearch`: a missing or blank keyword changes nothing; email mode always runs the
    email search; the other modes run the first search on an empty list and the
    subsequent search otherwise. `reply(k)` is the backend's answer to call number `k`.
   */
  function Search(nodes: seq<Node>, mode: Mode, raw: Option<string>, reply: nat -> Option<Body>): seq<Node> {
    var trimmed := Trim(raw.GetOr(""));
    if |trimmed| == 0 then nodes
    else if mode == Email then EmailSearch(nodes, trimmed, reply(0))
    else if nodes == [] then FirstSearch(mode, trimmed, reply(0))
    else SubsequentSearch(nodes, mode, trimmed, reply)
  }
}
