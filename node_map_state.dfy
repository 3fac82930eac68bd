/**
  The node-map component's state and its search handlers. The component keeps one
  piece of state, the node list; each handler reads it, asks the backend (whose answers
  are given as parameters), and replaces it. Searches run one after another, so the
  list a handler's update starts from is the list it read.
 */
module NodeMapState {
  import opened Wrappers
  import opened Text
  import opened Adapter
  import opened Graph
  import opened Dedup
  import opened Handlers
  import opened Csv
  import opened HandlerLemmas

  /**
    The loop of the match branch: asks the backend once per matching node, in list
    order, and appends that node's new candidates as its children; the set of known
    keys and the id counter are shared across the matching nodes.
   */
  method GrowMatches(mode: Mode, reply: nat -> Option<Body>, matches: seq<Node>, seen: set<string>, firstId: nat)
    returns (newNodes: seq<Node>, existingUrls: set<string>)
    ensures Grown(newNodes, existingUrls) == Branch(Batches(mode, reply, |matches|), matches, seen, firstId, |matches|)
  {
    newNodes, existingUrls := [], seen;
    var nextId := firstId;
    ghost var batches := Batches(mode, reply, |matches|);
    for k := 0 to |matches|
      invariant Grown(newNodes, existingUrls) == Branch(batches, matches, seen, firstId, k)
      invariant nextId == firstId + |newNodes|
    {
      var resultUrls := Replied(mode, reply, k);
      newNodes, existingUrls, nextId := GrowOne(batches, matches, seen, firstId, k, resultUrls, newNodes, existingUrls, nextId);
    }
  }

  /** One pass of the loop of `GrowMatches`: the children of the `k`-th matching node. */
  method GrowOne(ghost batches: seq<seq<Candidate>>, matches: seq<Node>, ghost seen: set<string>, ghost firstId: nat, k: nat,
                 resultUrls: seq<Candidate>, newNodes: seq<Node>, existingUrls: set<string>, nextId: nat)
    returns (newNodes': seq<Node>, existingUrls': set<string>, nextId': nat)
    requires k < |batches| <= |matches| && resultUrls == batches[k]
    requires Grown(newNodes, existingUrls) == Branch(batches, matches, seen, firstId, k)
    requires nextId == firstId + |newNodes|
    ensures Grown(newNodes', existingUrls') == Branch(batches, matches, seen, firstId, k + 1)
    ensures nextId' == firstId + |newNodes'|
  {
    var children;
    children, existingUrls', nextId' := CollectChildren(resultUrls, existingUrls, RawLower, nextId, matches[k].id);
    BranchStep(batches, matches, seen, firstId, k, newNodes, existingUrls, Kept(resultUrls, existingUrls, RawLower), children);
    newNodes' := newNodes + children;
  }

  /** The no-match branch of the subsequent search: a new root labelled with the keyword, and its children. */
  method NoMatchList(list: seq<Node>, mode: Mode, trimmed: string, reply: nat -> Option<Body>) returns (r: seq<Node>)
    requires Matches(list, Lower(trimmed)) == []
    ensures r == SubsequentSearch(list, mode, trimmed, reply)
  {
    var trimmedLower := Lower(trimmed);
    if HasRootLabelled(list, trimmedLower) {
      // The guard is dead: a root labelled with the keyword would have matched.
      GuardUnreachable(list, trimmedLower);
      assert false;
    }
    var resultUrls := Replied(mode, reply, 0);
    var newRoot := Node(MaxId(list) + 1, trimmed, None);
    var children, _, _ := CollectChildren(resultUrls, LowerLabels(list), RawLower, newRoot.id + 1, newRoot.id);
    SubsequentNoMatch(list, mode, trimmed, reply, resultUrls, newRoot.id, children);
    r := list + [newRoot] + children;
  }

  /** The match branch of the subsequent search: the children of every matching node, appended in order. */
  method MatchList(list: seq<Node>, mode: Mode, trimmed: string, reply: nat -> Option<Body>, matches: seq<Node>) returns (r: seq<Node>)
    requires matches == Matches(list, Lower(trimmed)) && matches != []
    ensures r == SubsequentSearch(list, mode, trimmed, reply)
  {
    var newNodes, _ := GrowMatches(mode, reply, matches, LowerLabels(list), MaxId(list) + 1);
    SubsequentMatch(list, mode, trimmed, reply, matches, newNodes);
    if |newNodes| > 0 {
      r := list + newNodes;
    } else {
      assert list + newNodes == list;
      r := list;
    }
  }

  class NodeMap {
    /** The logical node list `{id, url, parentId}[]`. */
    var nodeList: seq<Node>

    /** A fresh component starts with no nodes. */
    constructor ()
      ensures nodeList == []
    {
      nodeList := [];
    }

    /**
      The email handler. `fetched` is the reply of the email check. Without an email in
      it, a bare root is appended; otherwise the email's root is reused (its direct
      children dropped) or appended, and the platforms are added as its children.
     */
    method HandleEmailSearch(emailKeyword: string, fetched: Option<Body>)
      modifies this
      ensures nodeList == EmailSearch(old(nodeList), emailKeyword, fetched)
    {
      var list := nodeList;
      var emailData := IdentityFields(SearchUrlsFrom(Email, fetched));
      if emailData.None? || !Truthy(emailData.value.email) {
        var maxId := MaxId(list);
        EmailWithoutAddress(list, emailKeyword, fetched, emailData);
        nodeList := list + [Node(maxId + 1, emailKeyword, None)];
        return;
      }
      var email := Trim(emailData.value.email.value);
      var platforms := emailData.value.platformsFound.GetOr([]);
      var existingRoot := FindRoot(list, Lower(email));
      var maxId := MaxId(list);
      var nextId := maxId + 1;
      if existingRoot.Some? {
        var rootId := existingRoot.value.id;
        var updatedList := RemoveChildren(list, rootId);
        var children, _, _ := CollectChildren(platforms, LowerLabels(updatedList), TrimmedLower, nextId, rootId);
        EmailReusesRoot(list, emailKeyword, fetched, emailData, email, platforms, existingRoot.value, updatedList, children);
        nodeList := updatedList + children;
      } else {
        var rootId := nextId;
        nextId := nextId + 1;
        var updatedList := list + [Node(rootId, email, None)];
        var children, _, _ := CollectChildren(platforms, LowerLabels(updatedList), TrimmedLower, nextId, rootId);
        EmailAppendsRoot(list, emailKeyword, fetched, emailData, email, platforms, rootId, updatedList, children);
        nodeList := updatedList + children;
      }
    }

    /**
      The first search on an empty list, in keyword or username mode; `fetched` is the
      reply of the one backend call. The list is replaced by the new root and its children.
     */
    method HandleFirstSearchForNonEmail(mode: Mode, trimmed: string, fetched: Option<Body>)
      modifies this
      ensures nodeList == FirstSearch(mode, trimmed, fetched)
    {
      if mode == Username {
        var usernameData := IdentityFields(SearchUrlsFrom(Username, fetched));
        if usernameData.None? || !Truthy(usernameData.value.username) {
          nodeList := [Node(1, trimmed, None)];
          return;
        }
        var root := Node(1, usernameData.value.username.value, None);
        var sites := usernameData.value.sitesFound.GetOr([]);
        var children, _, _ := CollectChildren(SiteUrls(sites), {}, RawLower, 2, root.id);
        nodeList := [root] + children;
      } else {
        var root := Node(1, trimmed, None);
        var resultUrls := SearchUrlsFrom(Keyword, fetched).urls;
        if |resultUrls| == 0 {
          nodeList := [root];
          return;
        }
        var children := Children(NonBlank(resultUrls), 2, root.id);
        nodeList := [root] + children;
      }
    }

    /**
      A search on a non-empty list, in keyword or username mode. `reply(k)` is the reply
      to the `k`-th backend call: one call per matching node, or a single call when no
      label contains the keyword.
     */
    method HandleSubsequentSearchForNonEmail(mode: Mode, trimmed: string, reply: nat -> Option<Body>)
      modifies this
      ensures nodeList == SubsequentSearch(old(nodeList), mode, trimmed, reply)
    {
      var list := nodeList;
      var matches := Matches(list, Lower(trimmed));
      if |matches| == 0 {
        nodeList := NoMatchList(list, mode, trimmed, reply);
      } else {
        nodeList := MatchList(list, mode, trimmed, reply, matches);
      }
    }

    /**
      `runSearch`: trims the keyword (a missing one reads as empty), ignores a blank one,
      and hands the search to the handler for the mode and the state of the list.
     */
    method RunSearch(mode: Mode, rawKeyword: Option<string>, reply: nat -> Option<Body>)
      modifies this
      ensures |Trim(rawKeyword.GetOr(""))| == 0 ==> nodeList == old(nodeList)
      ensures |Trim(rawKeyword.GetOr(""))| > 0 && mode == Email ==>
        nodeList == EmailSearch(old(nodeList), Trim(rawKeyword.GetOr("")), reply(0))
      ensures |Trim(rawKeyword.GetOr(""))| > 0 && mode != Email && old(nodeList) == [] ==>
        nodeList == FirstSearch(mode, Trim(rawKeyword.GetOr("")), reply(0))
      ensures |Trim(rawKeyword.GetOr(""))| > 0 && mode != Email && old(nodeList) != [] ==>
        nodeList == SubsequentSearch(old(nodeList), mode, Trim(rawKeyword.GetOr("")), reply)
      ensures nodeList == Search(old(nodeList), mode, rawKeyword, reply)
    {
      var trimmed := Trim(rawKeyword.GetOr(""));
      if |trimmed| == 0 {
        return;
      }
      if mode == Email {
        HandleEmailSearch(trimmed, reply(0));
        return;
      }
      if |nodeList| == 0 {
        HandleFirstSearchForNonEmail(mode, trimmed, reply(0));
      } else {
        HandleSubsequentSearchForNonEmail(mode, trimmed, reply);
      }
    }

    /**
      The download handler: nothing to download for an empty list, otherwise the CSV text
      of the whole list.
     */
    method DownloadContent() returns (csv: Option<string>)
      ensures nodeList == [] <==> csv.None?
      ensures csv.Some? ==> csv.value == ConvertNodesToCsv(nodeList)
    {
      if |nodeList| == 0 {
        return None;
      }
      csv := Some(ConvertNodesToCsv(nodeList));
    }
  }
}
