# Investigation-graph node map, modelled in Dafny

This project models the node map of an OSINT investigation dashboard. The node map is a
flat list of nodes `{id, url, parentId}` that grows one search at a time:

- the first search seeds a root with its result URLs as children;
- a later search branches from every node whose label contains the keyword;
- a later search with no match opens a new root;
- in Email mode, a search creates or reuses the root labelled with the email and rebuilds
  its platform children.

New ids come from a "largest id + 1" counter. Candidates are checked for duplicates
against a set of lower-cased labels. Around the store sit three pure pieces:

- the normalisation of the backend's reply shapes (`searchUrlsFrom`);
- the node/link projection for the force graph (`buildGraph`);
- the CSV export (`convertNodesToCSV`).

A second, smaller piece is the per-source diversity selection of the statistics tab. It
keeps at most two records from each of five named sources, in a fixed order, capped at ten.

Modules:

- `Wrappers`: `Option`.
- `Text`: JavaScript's `trim`, `toLowerCase` (ASCII letters) and `includes`.
- `Adapter`: the JSON reply shapes and `searchUrlsFrom`, with the HTTP call taken out. A
  reply is `Option<Body>`, where `None` stands for a failed fetch, a failed parse or a JSON
  `null`.
- `Graph`: nodes, the largest id, `buildGraph`, and the id and parent predicates.
- `Dedup`: the duplicate-checking candidate loop shared by all handlers. It is given as a
  specification (`Kept`, `Children`) and as a loop (`CollectChildren`).
- `Handlers`: what one search step does to the list, as functions of the old list and the
  backend's replies. `reply(k)` is the answer to the step's `k`-th backend call.
- `HandlerLemmas`: what those steps promise (ids, parents, labels, duplicates, shape).
- `NodeMapState`: the component as a class whose one field is the node list. Its handler
  methods run the source's loops and are proved to reach the states the `Handlers`
  functions describe.
- `Csv`: the exporter, and a reference reader that it is proved against.
- `Statistics`: the diversity selection, as a method with loops, and its specification.

The model follows the code on these points:

- the first keyword search does not check for duplicates;
- in later searches, the duplicate key is the lower-cased untrimmed candidate, while the
  stored label is trimmed;
- an email re-query removes the direct children of the reused root;
- the no-match root is labelled with the typed keyword, also in Username mode.

Each of these is shown by a lemma (see the table).

## Model

| member | source | states |
|---|---|---|
| Text.TrimSpec | src/api/NodeMapAPI.jsx:431 | `trim` removes exactly the leading and trailing white space; the result is empty iff the string is all white space |
| Text.TrimIdempotent | src/api/NodeMapAPI.jsx:431 | trimming the already trimmed keyword changes nothing |
| Text.ContainsIffOccurs | src/api/NodeMapAPI.jsx:314 | `includes` holds iff the key occurs at some position of the label |
| Adapter.SearchUrlsFromReply | src/api/NodeMapAPI.jsx:23-70 | in Keyword mode every URL handed on is written in a reply that arrived (a failed request gives none); in Username and Email modes the handlers read the reply's own fields, an array reads as an object without them, and there is nothing to read exactly when the request failed |
| Adapter.KeywordUrlsFromReply | src/api/NodeMapAPI.jsx:51-63 | every URL of the keyword list is written in the reply: an element of `urls`, a `url`, `url_user` or `url_main` field of a `results` record, or a string or such a field of a bare-array element; none is made up |
| Adapter.FirstUrlPicksFirstTruthy | src/api/NodeMapAPI.jsx:54 | `url \|\| url_user \|\| url_main` is the first truthy field, and is truthy iff one of them is |
| Graph.MaxIdSpec | src/api/NodeMapAPI.jsx:317 | the reduce is at least every id, is 0 on an empty list, and is one of the ids otherwise |
| Graph.Links | src/api/NodeMapAPI.jsx:12-17 | a link `parentId → id` for every non-root entry and no other link, at most one per entry |
| Graph.LinksInOrder | src/api/NodeMapAPI.jsx:12-17 | the links are those of the non-root entries, one each, in list order: the links of a list cut anywhere are those of the front followed by those of the back, and a single entry gives its link exactly when it has a parent |
| Graph.LinksAppend | src/api/NodeMapAPI.jsx:12-17 | the links of a concatenation are the links of its parts, in order |
| Graph.BuildGraph | src/api/NodeMapAPI.jsx:6-20 | one graph node per entry, in order, with its id and label; the links are `Links` |
| Graph.BuildGraphLinksResolve | src/api/NodeMapAPI.jsx:6-20 | when every parent reference resolves, every link's two ends are graph nodes |
| Dedup.KeptSound | src/api/NodeMapAPI.jsx:364-376 | every accepted candidate is a non-blank string of the reply whose key was not already known |
| Dedup.KeptComplete | src/api/NodeMapAPI.jsx:364-376 | every usable candidate's key is known after the loop (known before, or accepted) |
| Dedup.KeptDistinct | src/api/NodeMapAPI.jsx:364-376 | no two accepted candidates share a key |
| Dedup.KeptNothingNew | src/api/NodeMapAPI.jsx:364-376 | when every usable candidate's key is known, nothing is accepted |
| Dedup.KeptAgainIsEmpty | src/api/NodeMapAPI.jsx:364-376 | running the loop again with the keys it added accepts nothing |
| Dedup.CollectChildren | src/api/NodeMapAPI.jsx:364-376 | the loop pushes exactly the children of the accepted candidates, numbered on from the counter, and leaves the known keys grown by exactly their keys |
| Dedup.KeptSpec | src/api/NodeMapAPI.jsx:364-376 | the check runs in reply order and the first candidate with a key wins: what is accepted from a list cut anywhere is what the front accepts, then what the back accepts against the keys known after the front; a single candidate is accepted exactly when it is non-blank and its key is not yet known |
| Dedup.NonBlankSpec | src/api/NodeMapAPI.jsx:296-302 | the keyword filter keeps every non-blank string as often as it occurs, and nothing else, in reply order: the filter of a list cut anywhere is that of the front followed by that of the back, and a single candidate gives its string exactly when it is non-blank |
| Handlers.TruthiesSpec | src/api/NodeMapAPI.jsx:342-344 | `.filter(Boolean)` keeps exactly the truthy values, in order and with repetitions: the filter of a list cut anywhere is that of the front followed by that of the back, and a single value is kept exactly when it is truthy |
| Handlers.MatchesSpec | src/api/NodeMapAPI.jsx:312-315 | the matches are exactly the nodes whose lower-cased label contains the lower-cased keyword, in list order: the matches of a list cut anywhere are those of the front followed by those of the back, and a single node is a match exactly when its label contains the key |
| Handlers.FindRootSpec | src/api/NodeMapAPI.jsx:178-183 | `find` returns the first root labelled with the email up to case, and finds none exactly when there is none |
| Handlers.RemoveChildrenSpec | src/api/NodeMapAPI.jsx:195 | the filter keeps exactly the nodes whose parent is not the root, in list order: the filter of a list cut anywhere is that of the front followed by that of the back, and a single node is kept exactly when its parent is not the root |
| HandlerLemmas.BranchIds | src/api/NodeMapAPI.jsx:414-418 | the match branch numbers its nodes consecutively from `max + 1`, and its known keys only grow |
| HandlerLemmas.BranchFromReply | src/api/NodeMapAPI.jsx:390-420 | every node of the match branch hangs under one of the matching parents and is labelled with the trimmed form of a non-blank candidate from that parent's reply whose key was not a label |
| HandlerLemmas.BranchKnownGrows | src/api/NodeMapAPI.jsx:383-412 | the key set shared by the parents only grows from one parent to the next |
| HandlerLemmas.FirstParentWins | src/api/NodeMapAPI.jsx:383-412 | a candidate from the reply for an earlier parent, or any candidate equal to it up to letter case, is never added under a later parent |
| HandlerLemmas.MatchNothingNew | src/api/NodeMapAPI.jsx:422-426 | when every usable candidate of every reply is already a label, the list is unchanged |
| HandlerLemmas.GuardUnreachable | src/api/NodeMapAPI.jsx:325-336 | the duplicate-root guard is unreachable: a root labelled with the keyword would have matched |
| HandlerLemmas.SubsequentMatchShape | src/api/NodeMapAPI.jsx:382-426 | old nodes are kept in order, new nodes are appended with ids `max + 1, max + 2, …`, and each comes from its parent's reply |
| HandlerLemmas.SubsequentMatchParents | src/api/NodeMapAPI.jsx:414-418 | every new node's parent is a node of the list whose label contains the keyword |
| HandlerLemmas.NoMatchAppends | src/api/NodeMapAPI.jsx:358-378 | with no match, the guard never fires, and the root and its children are appended |
| HandlerLemmas.SubsequentNoMatchShape | src/api/NodeMapAPI.jsx:358-378 | with no match, the old list is kept, then one root `{max + 1, keyword, null}`, then children numbered on and all under that root |
| HandlerLemmas.SubsequentNoMatchLabels | src/api/NodeMapAPI.jsx:364-376 | each no-match child is labelled with a trimmed non-blank candidate whose untrimmed lower-cased form was not a label of the old list (the new root's label is not in that set) |
| HandlerLemmas.SubsequentKeepsWellFormed | src/api/NodeMapAPI.jsx:308-427 | a subsequent search keeps ids unique and positive, and keeps every parent before its children |
| HandlerLemmas.UntrimmedKeyDuplicatesLabel | src/api/NodeMapAPI.jsx:367-373 | the candidate `" x"` passes the check against the label `x` (untrimmed key) and is stored as a second `x` |
| HandlerLemmas.FirstSearchShape | src/api/NodeMapAPI.jsx:240-305 | the first search yields root 1, labelled with the keyword (or the returned username), and children 2, 3, … under it; in Keyword mode, one child per non-blank result, trimmed; in Username mode without a username, the root alone |
| HandlerLemmas.FirstUsernameChildren | src/api/NodeMapAPI.jsx:259-274 | Username mode adds one child per accepted site URL, labelled with its trimmed form, and no two accepted URLs share a lower-cased key |
| HandlerLemmas.FirstSearchWellFormed | src/api/NodeMapAPI.jsx:240-305 | the first search yields unique positive ids and a forest |
| HandlerLemmas.FirstKeywordKeepsDuplicates | src/api/NodeMapAPI.jsx:296-302 | the first keyword search keeps a URL listed twice as two children |
| HandlerLemmas.PlatformChildren | src/api/NodeMapAPI.jsx:214-231 | the platform children are numbered on under the root; each is a trimmed non-blank platform whose lower-cased label is new, and no two of them share one |
| HandlerLemmas.EmailReuseShape | src/api/NodeMapAPI.jsx:192-195 | on reuse, the root stays, only its direct children are removed, the rest is kept in order (what is kept of a list cut anywhere is what is kept of the front followed by what is kept of the back), and the new children are numbered from `max + 1` under it |
| HandlerLemmas.EmailNewRootShape | src/api/NodeMapAPI.jsx:196-205 | otherwise, the old list is kept, then the root `{max + 1, email, null}`, then its children |
| HandlerLemmas.EmailChildrenLabels | src/api/NodeMapAPI.jsx:207-233 | each platform child comes from the reply, and no platform child shares a lower-cased label with any earlier node of the result |
| HandlerLemmas.EmailKeepsIds | src/api/NodeMapAPI.jsx:186-187 | an email search keeps ids unique and positive; every node is old or has an id above the old maximum, so removed ids are never reused |
| HandlerLemmas.EmailNewRootKeepsForest | src/api/NodeMapAPI.jsx:196-233 | an email search that creates its root keeps the list a forest |
| HandlerLemmas.EmailRequeryLeavesDanglingParent | src/api/NodeMapAPI.jsx:195 | re-querying an email removes a child but keeps its grandchild, whose parent then no longer resolves |
| HandlerLemmas.SubsequentAppends | src/api/NodeMapAPI.jsx:378 | a subsequent search only appends, with consecutive ids from `max + 1` |
| HandlerLemmas.SearchKeepsIds | src/api/NodeMapAPI.jsx:430-453 | any search keeps ids unique and positive, adds only ids above the old maximum, and in non-email modes keeps the old list as a prefix |
| HandlerLemmas.SearchKeepsForest | src/api/NodeMapAPI.jsx:430-453 | a non-email search keeps the list a forest |
| NodeMapState.NoMatchList | src/api/NodeMapAPI.jsx:321-379 | with no label containing the keyword, the handler's branch builds the list the subsequent search describes (the root guard is shown dead) |
| NodeMapState.MatchList | src/api/NodeMapAPI.jsx:382-426 | with some label containing the keyword, the handler's branch builds the list the subsequent search describes |
| NodeMapState.GrowMatches | src/api/NodeMapAPI.jsx:383-420 | the per-parent loop builds the nodes and the key set of the match branch |
| NodeMapState.NodeMap.constructor | src/api/NodeMapAPI.jsx:122 | the node list starts empty |
| NodeMapState.NodeMap.HandleEmailSearch | src/api/NodeMapAPI.jsx:158-237 | the handler leaves the list the email search describes |
| NodeMapState.NodeMap.HandleFirstSearchForNonEmail | src/api/NodeMapAPI.jsx:240-306 | the handler leaves the list the first search describes |
| NodeMapState.NodeMap.HandleSubsequentSearchForNonEmail | src/api/NodeMapAPI.jsx:308-427 | the handler leaves the list the subsequent search describes |
| NodeMapState.NodeMap.RunSearch | src/api/NodeMapAPI.jsx:430-453 | a blank or missing keyword leaves the list unchanged; Email mode always runs the email handler; other modes run the first search iff the list is empty |
| NodeMapState.NodeMap.DownloadContent | src/api/NodeMapAPI.jsx:138-151 | nothing is exported iff the list is empty; otherwise the export is the list's CSV |
| Csv.ParseNatToString | src/api/NodeMapAPI.jsx:92 | an id is printed as decimal digits that read back as the id |
| Csv.EscapeFieldParses | src/api/NodeMapAPI.jsx:86-90 | a label written as the exporter writes it reads back as itself, and the rest of the line is left for the next field |
| Csv.RowDecodes | src/api/NodeMapAPI.jsx:80-93 | one row reads back as its node, an empty third field standing for a root |
| Csv.RowsDecode | src/api/NodeMapAPI.jsx:80-93 | the rows read back as the list |
| Csv.SplitJoinLines | src/api/NodeMapAPI.jsx:94 | rows joined by line feeds, none holding one, split back into the same rows |
| Csv.DecodeHeaderOnly | src/api/NodeMapAPI.jsx:74-76 | the bare header line, which is the export of the empty list, reads back as no nodes |
| Csv.DecodeConvert | src/api/NodeMapAPI.jsx:73-97 | when no label holds a line feed, the export reads back as exactly the list |
| Csv.ConvertEndsWithLastRow | src/api/NodeMapAPI.jsx:94-96 | the export ends with the last node's row and no line feed after it; only the empty list ends with the header's line feed |
| Csv.LineFeedBreaksRow | src/api/NodeMapAPI.jsx:86-90 | a label holding a line feed is written unquoted (the export of the one-node list `a\nb` is exactly the header, then `1,a`, a line feed and `b,`), and the export no longer reads back |
| Statistics.GroupsUpToSpec | src/api/StatisticsAPI.jsx:18-24 | while no inherited name has come up, the dictionary has a group exactly for the sources that have a record so far (both directions), holding the records of that source in input order |
| Statistics.SelectDiverse | src/api/StatisticsAPI.jsx:15-40 | when some record's source is a name every object inherits (`constructor`, `toString`, `__proto__`, …), the grouping throws, the error is only logged and the reply stays shown as it came; otherwise the grouping and selection loops leave the diverse selection shown |
| Statistics.DiverseSpec | src/api/StatisticsAPI.jsx:26-36 | at most ten records, all input records of one of the five sources, in the fixed source order |
| Statistics.DiversePerSource | src/api/StatisticsAPI.jsx:30-34 | each listed source contributes its first two records in input order (`min(n, 2)` of them); an unlisted source contributes none |
| Statistics.CapNeverCuts | src/api/StatisticsAPI.jsx:36 | the final `slice(0, 10)` never removes anything |

## Left out

- The HTTP calls, URL building and `res.json()` are left out. A reply is a parameter: `fetched` for one call, or `reply(k)` for the `k`-th call of a step.
- `alert`, `console` logging, the loading spinner and the React effect wiring are left out.
- The asynchronous race is not modelled. `setNodeList(prev => …)` could start from a list newer than the one the handler read. Steps are modelled one after another, so the two lists are the same.
- `downloadCSV` is left out: the Blob, the DOM anchor and the timestamped file name are browser side effects. `DownloadContent` returns the text instead.
- Exceptions a handler throws on malformed replies are not modelled. These are a non-array `sites_found`, a `null` site, and a non-string URL, platform or email. The model's reply types cannot express them. A `null` inside `results` or the bare array is modelled, since `searchUrlsFrom` catches it.
- The `typeof n.url === "string"` filters are not modelled, because every label in the model is a string.
- `maxId + 1 || 1` is modelled as `maxId + 1`. Ids are natural numbers here, so the `NaN` fallback never applies.
- Text.Lower folds ASCII letters only. JavaScript's full Unicode case mapping is not modelled.
- The statistics fetch and the logging in its `catch` are left out. The reply shown before the selection, and the throw on an inherited name that leaves it shown, are modelled. Records whose `source` is not a string are left out.
- The force graph, heatmap, Gemini call and the presentational components are not part of this model. They are a foreign physics library, floating-point colour scales and UI.
- Graph.Links: its own contract states membership both ways and the bound on the count. The exact count and the order are stated by `Graph.LinksInOrder`.
- HandlerLemmas.SearchKeepsForest: is stated for Keyword and Username modes only. An email re-query can leave a grandchild whose parent was removed (`EmailRequeryLeavesDanglingParent`). Email mode keeps the forest only when it creates its root (`EmailNewRootKeepsForest`).
