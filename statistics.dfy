/**
  The per-source selection of the statistics view. The records of the statistics reply
  are grouped by their `source` into a dictionary of lists, in reply order; then, for
  each of the five listed sources in turn, the first two records of that source (if it
  has any) are appended to the selection, which is finally cut to ten records. A source
  that names a member every object inherits makes the grouping throw, and the reply stays
  shown as it came.
 */
module Statistics {

  /** A record of the statistics reply: its source, and the rest of it, which the selection never reads. */
  datatype Post = Post(source: string, body: string)

  /** The sources the view shows, in the order it shows them. */
  const Sources: seq<string> := ["TikTok", "Instagram", "Facebook", "YouTube", "Reddit"]

  /** How many records of one source are shown. */
  const PerSource: nat := 2

  /** How many records are shown in all. */
  const Cap: nat := 10

  /** `slice(0, n)`: the first `n` entries, or all of them when there are fewer. */
  function Prefix(xs: seq<Post>, n: nat): (r: seq<Post>)
    ensures |r| == if |xs| < n then |xs| else n
    ensures forall i :: 0 <= i < |r| ==> r[i] == xs[i]
  {
    if |xs| < n then xs else xs[..n]
  }

  // ----- Specification -----

  /** The records of `source` among the first `n` records, in reply order. */
  function OfSourceUpTo(records: seq<Post>, source: string, n: nat): seq<Post>
    requires n <= |records|
  {
    if n == 0 then []
    else OfSourceUpTo(records, source, n - 1) + (if records[n - 1].source == source then [records[n - 1]] else [])
  }

  /** The records of `source`, in reply order. */
  function OfSource(records: seq<Post>, source: string): seq<Post> {
    OfSourceUpTo(records, source, |records|)
  }

  /** The selection for the first `k` listed sources: the first two records of each, source by source. */
  function PickedUpTo(records: seq<Post>, k: nat): seq<Post>
    requires k <= |Sources|
  {
    if k == 0 then []
    else PickedUpTo(records, k - 1) + Prefix(OfSource(records, Sources[k - 1]), PerSource)
  }

  /** What the view shows for a reply: the selection over all listed sources, cut to ten. */
  function Diverse(records: seq<Post>): seq<Post> {
    Prefix(PickedUpTo(records, |Sources|), Cap)
  }

  // ----- The grouping dictionary -----

  /**
    The names every plain object inherits from `Object.prototype`. Looking one of them up
    in `sourceGroups` finds the inherited member, which is truthy, so no list is made for
    it and the `push` that follows is not a function: the grouping throws.
   */
  const InheritedNames: set<string> := {
    "constructor", "__proto__", "toString", "toLocaleString", "valueOf", "hasOwnProperty",
    "isPrototypeOf", "propertyIsEnumerable", "__defineGetter__", "__defineSetter__",
    "__lookupGetter__", "__lookupSetter__"
  }

  /** Some record of the reply names an inherited member as its source. */
  predicate HasInheritedSource(records: seq<Post>) {
    exists i :: 0 <= i < |records| && records[i].source in InheritedNames
  }

  /** `sourceGroups` after the first `n` records: each record pushed onto the list of its source. */
  function GroupsUpTo(records: seq<Post>, n: nat): map<string, seq<Post>>
    requires n <= |records|
  {
    if n == 0 then map[]
    else
      var groups := GroupsUpTo(records, n - 1);
      var item := records[n - 1];
      var group := if item.source in groups then groups[item.source] else [];
      groups[item.source := group + [item]]
  }

  /**
    After the first `n` records the dictionary holds a list exactly for the sources met so
    far, and that list is the records of its source, in reply order.
   */
  lemma {:induction false} GroupsUpToSpec(records: seq<Post>, n: nat)
    requires n <= |records|
    ensures forall s :: s in GroupsUpTo(records, n) ==> GroupsUpTo(records, n)[s] == OfSourceUpTo(records, s, n)
    ensures forall s :: s !in GroupsUpTo(records, n) ==> OfSourceUpTo(records, s, n) == []
    ensures forall s :: s in GroupsUpTo(records, n) <==> OfSourceUpTo(records, s, n) != []
  {
    if n > 0 {
      GroupsUpToSpec(records, n - 1);
    }
  }

  /**
    The loop of the view: shows the reply as it came, then fills `sourceGroups` record by
    record, appends the first two records of each listed source that has a group, and
    shows the first ten. A record whose source is an inherited name makes the grouping
    throw; the error is only logged, so the reply as it came stays shown.
   */
  method SelectDiverse(records: seq<Post>) returns (data: seq<Post>)
    ensures HasInheritedSource(records) ==> data == records
    ensures !HasInheritedSource(records) ==> data == Diverse(records)
  {
    data := records;
    var sourceGroups: map<string, seq<Post>> := map[];
    for i := 0 to |records|
      invariant sourceGroups == GroupsUpTo(records, i)
      invariant forall j :: 0 <= j < i ==> records[j].source !in InheritedNames
    {
      var item := records[i];
      if item.source in InheritedNames {
        return;
      }
      if item.source !in sourceGroups {
        sourceGroups := sourceGroups[item.source := []];
      }
      sourceGroups := sourceGroups[item.source := sourceGroups[item.source] + [item]];
    }
    GroupsUpToSpec(records, |records|);

    var diverseData: seq<Post> := [];
    for k := 0 to |Sources|
      invariant diverseData == PickedUpTo(records, k)
    {
      var source := Sources[k];
      if source in sourceGroups {
        diverseData := diverseData + Prefix(sourceGroups[source], PerSource);
      } else {
        assert Prefix(OfSource(records, source), PerSource) == [];
      }
    }
    data := Prefix(diverseData, Cap);
    assert !HasInheritedSource(records);
  }

  // ----- What the selection promises -----

  /** The records of a source within a concatenation are those of each part, in turn. */
  lemma {:induction false} OfSourceUpToAppend(a: seq<Post>, b: seq<Post>, source: string, m: nat)
    requires m <= |b|
    ensures OfSourceUpTo(a + b, source, |a| + m) == OfSource(a, source) + OfSourceUpTo(b, source, m)
  {
    if m == 0 {
      OfSourceUpToPrefix(a, b, source, |a|);
    } else {
      OfSourceUpToAppend(a, b, source, m - 1);
      assert (a + b)[|a| + m - 1] == b[m - 1];
    }
  }

  /** The first `n` records of `a + b`, for `n` within `a`, are those of `a`. */
  lemma {:induction false} OfSourceUpToPrefix(a: seq<Post>, b: seq<Post>, source: string, n: nat)
    requires n <= |a|
    ensures OfSourceUpTo(a + b, source, n) == OfSourceUpTo(a, source, n)
  {
    if n > 0 {
      OfSourceUpToPrefix(a, b, source, n - 1);
      assert (a + b)[n - 1] == a[n - 1];
    }
  }

  /** Filtering by source distributes over concatenation. */
  lemma OfSourceAppend(a: seq<Post>, b: seq<Post>, source: string)
    ensures OfSource(a + b, source) == OfSource(a, source) + OfSource(b, source)
  {
    OfSourceUpToAppend(a, b, source, |b|);
  }

  /** Every record among the first `n` of one source is a record of that source from the input. */
  lemma {:induction false} OfSourceUpToSound(records: seq<Post>, source: string, n: nat)
    requires n <= |records|
    ensures forall p :: p in OfSourceUpTo(records, source, n) ==> p in records && p.source == source
  {
    if n > 0 {
      OfSourceUpToSound(records, source, n - 1);
    }
  }

  /** Filtering a list whose records all come from `t`: everything when `t` is the source asked for, nothing otherwise. */
  lemma {:induction false} OfSourceUniformUpTo(xs: seq<Post>, t: string, source: string, n: nat)
    requires n <= |xs|
    requires forall i :: 0 <= i < |xs| ==> xs[i].source == t
    ensures OfSourceUpTo(xs, source, n) == if t == source then xs[..n] else []
  {
    if n > 0 {
      OfSourceUniformUpTo(xs, t, source, n - 1);
      if t == source {
        assert xs[..n] == xs[..n - 1] + [xs[n - 1]];
      }
    }
  }

  /** The block a listed source contributes: its first two records, all of that source. */
  lemma BlockSpec(records: seq<Post>, t: string, source: string)
    ensures forall p :: p in Prefix(OfSource(records, t), PerSource) ==> p in records && p.source == t
    ensures OfSource(Prefix(OfSource(records, t), PerSource), source) ==
      if t == source then Prefix(OfSource(records, t), PerSource) else []
  {
    var block := Prefix(OfSource(records, t), PerSource);
    OfSourceUpToSound(records, t, |records|);
    assert forall i :: 0 <= i < |block| ==> block[i] in OfSource(records, t);
    OfSourceUniformUpTo(block, t, source, |block|);
    assert block[..|block|] == block;
  }

  /** Where a listed source stands in the display order. */
  function Rank(source: string): nat {
    if source == Sources[0] then 0
    else if source == Sources[1] then 1
    else if source == Sources[2] then 2
    else if source == Sources[3] then 3
    else 4
  }

  /** The selection after `k` sources holds at most two records per source. */
  lemma {:induction false} PickedUpToLength(records: seq<Post>, k: nat)
    requires k <= |Sources|
    ensures |PickedUpTo(records, k)| <= PerSource * k
  {
    if k > 0 {
      PickedUpToLength(records, k - 1);
    }
  }

  /** The selection after `k` sources holds only records of the reply from those sources. */
  lemma {:induction false} PickedUpToSound(records: seq<Post>, k: nat)
    requires k <= |Sources|
    ensures forall p :: p in PickedUpTo(records, k) ==> p in records && p.source in Sources[..k]
  {
    if k > 0 {
      PickedUpToSound(records, k - 1);
      BlockSpec(records, Sources[k - 1], Sources[k - 1]);
      assert Sources[..k] == Sources[..k - 1] + [Sources[k - 1]];
    }
  }

  /** The selection after `k` sources is grouped in the listed order, each source after the ones before it. */
  lemma {:induction false} PickedUpToOrdered(records: seq<Post>, k: nat)
    requires k <= |Sources|
    ensures forall i :: 0 <= i < |PickedUpTo(records, k)| ==> Rank(PickedUpTo(records, k)[i].source) < k
    ensures forall i, j :: 0 <= i < j < |PickedUpTo(records, k)| ==>
      Rank(PickedUpTo(records, k)[i].source) <= Rank(PickedUpTo(records, k)[j].source)
  {
    if k > 0 {
      PickedUpToOrdered(records, k - 1);
      var block := Prefix(OfSource(records, Sources[k - 1]), PerSource);
      BlockSpec(records, Sources[k - 1], Sources[k - 1]);
      forall i | 0 <= i < |block|
        ensures Rank(block[i].source) == k - 1
      {
        assert block[i] in block;
      }
    }
  }

  /** `source` is one of the first `k` listed sources. */
  predicate ListedBefore(source: string, k: nat) {
    exists i :: 0 <= i < k && i < |Sources| && Sources[i] == source
  }

  /** The five listed sources are five different names. */
  lemma SourcesDistinct()
    ensures forall i, j :: 0 <= i < j < |Sources| ==> Sources[i] != Sources[j]
  {
    assert |Sources[0]| == 6 && |Sources[1]| == 9 && |Sources[2]| == 8 && |Sources[3]| == 7 && |Sources[4]| == 6;
    assert Sources[0][0] != Sources[4][0];
  }

  /** The records of `source` in the selection after `k` listed sources. */
  lemma {:induction false} PickedUpToPerSource(records: seq<Post>, k: nat, source: string)
    requires k <= |Sources|
    ensures OfSource(PickedUpTo(records, k), source) ==
      if ListedBefore(source, k) then Prefix(OfSource(records, source), PerSource) else []
  {
    if k > 0 {
      PickedUpToPerSource(records, k - 1, source);
      OfSourceAppend(PickedUpTo(records, k - 1), Prefix(OfSource(records, Sources[k - 1]), PerSource), source);
      BlockSpec(records, Sources[k - 1], source);
      if source == Sources[k - 1] {
        SourcesDistinct();
        assert !ListedBefore(source, k - 1);
        assert ListedBefore(source, k);
      } else {
        assert ListedBefore(source, k) <==> ListedBefore(source, k - 1);
      }
    }
  }

  /** The cut to ten never removes a record: five sources of at most two each. */
  lemma CapNeverCuts(records: seq<Post>)
    ensures Diverse(records) == PickedUpTo(records, |Sources|)
    ensures |Diverse(records)| <= Cap
  {
    PickedUpToLength(records, |Sources|);
  }

  /**
    What the view shows: only records of the reply, only from the five listed sources,
    grouped in the listed order, at most ten of them.
   */
  lemma DiverseSpec(records: seq<Post>)
    ensures |Diverse(records)| <= Cap
    ensures forall p :: p in Diverse(records) ==> p in records && p.source in Sources
    ensures forall i, j :: 0 <= i < j < |Diverse(records)| ==>
      Rank(Diverse(records)[i].source) <= Rank(Diverse(records)[j].source)
  {
    CapNeverCuts(records);
    PickedUpToSound(records, |Sources|);
    PickedUpToOrdered(records, |Sources|);
    assert Sources[..|Sources|] == Sources;
  }

  /**
    Per source: a listed source is represented by its first two records in reply order
    (as many as it has, up to two), any other source by none.
   */
  lemma DiversePerSource(records: seq<Post>, source: string)
    ensures OfSource(Diverse(records), source) ==
      if source in Sources then Prefix(OfSource(records, source), PerSource) else []
    ensures source in Sources ==>
      |OfSource(Diverse(records), source)| == if |OfSource(records, source)| < 2 then |OfSource(records, source)| else 2
  {
    CapNeverCuts(records);
    PickedUpToPerSource(records, |Sources|, source);
    assert source in Sources <==> ListedBefore(source, |Sources|);
  }
}
