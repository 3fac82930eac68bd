/**
  Turning a list of candidate values into child nodes. Every handler runs the same loop:
  skip a candidate that is null or blank, skip it when its lower-cased key is already in
  the set of known labels, otherwise remember the key and push a child carrying the
  trimmed candidate and the next id. Only the key differs: keyword and username searches
  look up the candidate as received, the email search looks up the trimmed candidate.
 */
module Dedup {
  import opened Wrappers
  import opened Text
  import opened Adapter
  import opened Graph

  /** Which string the duplicate check looks up. */
  datatype KeyKind = RawLower | TrimmedLower

  /** The duplicate-check key of a candidate string. */
  function Key(kind: KeyKind, s: string): string {
    match kind
    case RawLower => Lower(s)
    case TrimmedLower => Lower(Trim(s))
  }

  /** A string that is empty or all white space (`!s || !s.trim()`). */
  predicate Blank(s: string) {
    |Trim(s)| == 0
  }

  /** A candidate that can become a node: a string that is not blank. */
  predicate Usable(c: Candidate) {
    c.Some? && !Blank(c.value)
  }

  /** The keys of the accepted candidates. */
  function KeysOf(kept: seq<string>, kind: KeyKind): set<string> {
    set s | s in kept :: Key(kind, s)
  }

  /**
    The first `n` candidates that survive the duplicate check against the known keys
    `seen`, in order and as received (not yet trimmed). Defined on prefixes, as the loop
    runs: the last of them is accepted when it is usable and its key is neither known nor
    the key of an earlier accepted candidate.
   */
  function KeptPrefix(cands: seq<Candidate>, seen: set<string>, kind: KeyKind, n: nat): seq<string>
    requires n <= |cands|
  {
    if n == 0 then []
    else
      var prev := KeptPrefix(cands, seen, kind, n - 1);
      var c := cands[n - 1];
      if Usable(c) && Key(kind, c.value) !in seen + KeysOf(prev, kind) then prev + [c.value] else prev
  }

  /** All the candidates that survive the duplicate check against `seen`. */
  function Kept(cands: seq<Candidate>, seen: set<string>, kind: KeyKind): seq<string> {
    KeptPrefix(cands, seen, kind, |cands|)
  }

  /** The child nodes made from accepted candidates: trimmed labels, ids from `firstId` on. */
  function Children(kept: seq<string>, firstId: nat, parent: nat): (r: seq<Node>)
    ensures |r| == |kept|
  {
    seq(|kept|, i requires 0 <= i < |kept| => Node(firstId + i, Trim(kept[i]), Some(parent)))
  }

  /** Every accepted candidate among the first `n` is a usable candidate whose key was not known. */
  lemma {:induction false} KeptPrefixSound(cands: seq<Candidate>, seen: set<string>, kind: KeyKind, n: nat)
    requires n <= |cands|
    ensures forall s :: s in KeptPrefix(cands, seen, kind, n) ==> Some(s) in cands && !Blank(s) && Key(kind, s) !in seen
    decreases n
  {
    if n > 0 {
      KeptPrefixSound(cands, seen, kind, n - 1);
    }
  }

  /**
    Every accepted candidate is a usable candidate of the input whose key was not known
    before.
   */
  lemma KeptSound(cands: seq<Candidate>, seen: set<string>, kind: KeyKind)
    ensures forall s :: s in Kept(cands, seen, kind) ==> Some(s) in cands && !Blank(s) && Key(kind, s) !in seen
  {
    KeptPrefixSound(cands, seen, kind, |cands|);
  }

  /** No two of the strings share a key. */
  predicate DistinctKeys(kept: seq<string>, kind: KeyKind) {
    forall i, j :: 0 <= i < j < |kept| ==> Key(kind, kept[i]) != Key(kind, kept[j])
  }

  /** No two of the first `n` accepted candidates share a key. */
  lemma {:induction false} KeptPrefixDistinct(cands: seq<Candidate>, seen: set<string>, kind: KeyKind, n: nat)
    requires n <= |cands|
    ensures DistinctKeys(KeptPrefix(cands, seen, kind, n), kind)
    decreases n
  {
    if n > 0 {
      KeptPrefixDistinct(cands, seen, kind, n - 1);
      AcceptDistinct(KeptPrefix(cands, seen, kind, n - 1), cands[n - 1], seen, kind);
      KeptPrefixStep(cands, seen, kind, n);
    }
  }

  /** One step of the check keeps the accepted keys distinct. */
  lemma AcceptDistinct(prev: seq<string>, c: Candidate, seen: set<string>, kind: KeyKind)
    requires DistinctKeys(prev, kind)
    ensures DistinctKeys(Accept(prev, c, seen, kind), kind)
  {
    if Usable(c) && Key(kind, c.value) !in seen + KeysOf(prev, kind) {
      var kept := prev + [c.value];
      forall i, j | 0 <= i < j < |kept|
        ensures Key(kind, kept[i]) != Key(kind, kept[j])
      {
        if j == |prev| {
          assert Key(kind, prev[i]) in KeysOf(prev, kind);
        }
      }
    }
  }

  /** No two accepted candidates share a key. */
  lemma KeptDistinct(cands: seq<Candidate>, seen: set<string>, kind: KeyKind)
    ensures DistinctKeys(Kept(cands, seen, kind), kind)
  {
    KeptPrefixDistinct(cands, seen, kind, |cands|);
  }

  /** The key of every usable candidate among the first `n` is known or accepted. */
  lemma {:induction false} KeptPrefixComplete(cands: seq<Candidate>, seen: set<string>, kind: KeyKind, n: nat)
    requires n <= |cands|
    ensures forall j :: 0 <= j < n && Usable(cands[j]) ==>
      Key(kind, cands[j].value) in seen + KeysOf(KeptPrefix(cands, seen, kind, n), kind)
    decreases n
  {
    if n > 0 {
      KeptPrefixComplete(cands, seen, kind, n - 1);
      var prev := KeptPrefix(cands, seen, kind, n - 1);
      assert KeysOf(prev, kind) <= KeysOf(KeptPrefix(cands, seen, kind, n), kind);
    }
  }

  /**
    Nothing usable is lost: the key of every usable candidate is either known beforehand
    or the key of an accepted candidate.
   */
  lemma KeptComplete(cands: seq<Candidate>, seen: set<string>, kind: KeyKind)
    ensures forall c :: c in cands && Usable(c) ==>
      Key(kind, c.value) in seen + KeysOf(Kept(cands, seen, kind), kind)
  {
    KeptPrefixComplete(cands, seen, kind, |cands|);
  }

  /** When every usable candidate's key is already known, none of the first `n` is accepted. */
  lemma {:induction false} KeptPrefixNothingNew(cands: seq<Candidate>, seen: set<string>, kind: KeyKind, n: nat)
    requires n <= |cands|
    requires forall c :: c in cands && Usable(c) ==> Key(kind, c.value) in seen
    ensures KeptPrefix(cands, seen, kind, n) == []
    decreases n
  {
    if n > 0 {
      KeptPrefixNothingNew(cands, seen, kind, n - 1);
    }
  }

  /** When every usable candidate's key is already known, nothing is accepted. */
  lemma KeptNothingNew(cands: seq<Candidate>, seen: set<string>, kind: KeyKind)
    requires forall c :: c in cands && Usable(c) ==> Key(kind, c.value) in seen
    ensures Kept(cands, seen, kind) == []
  {
    KeptPrefixNothingNew(cands, seen, kind, |cands|);
  }

  /**
    Running the check a second time over the same candidates, with the keys the first run
    added, accepts nothing.
   */
  lemma KeptAgainIsEmpty(cands: seq<Candidate>, seen: set<string>, kind: KeyKind)
    ensures Kept(cands, seen + KeysOf(Kept(cands, seen, kind), kind), kind) == []
  {
    KeptComplete(cands, seen, kind);
    KeptNothingNew(cands, seen + KeysOf(Kept(cands, seen, kind), kind), kind);
  }

  /** One more accepted candidate adds one child, with the next id, at the end. */
  lemma ChildrenSnoc(kept: seq<string>, v: string, firstId: nat, parent: nat)
    ensures Children(kept, firstId, parent) + [Node(firstId + |kept|, Trim(v), Some(parent))] == Children(kept + [v], firstId, parent)
  {
    var a := Children(kept, firstId, parent) + [Node(firstId + |kept|, Trim(v), Some(parent))];
    var b := Children(kept + [v], firstId, parent);
    forall i | 0 <= i < |a|
      ensures a[i] == b[i]
    {
      if i < |kept| {
        assert (kept + [v])[i] == kept[i];
      }
    }
  }

  /** One more accepted candidate adds its key to the keys of the accepted ones. */
  lemma KeysOfSnoc(kept: seq<string>, v: string, kind: KeyKind)
    ensures KeysOf(kept + [v], kind) == KeysOf(kept, kind) + {Key(kind, v)}
  {
    assert forall t :: t in kept + [v] <==> t in kept || t == v;
  }

  /** The keys of two runs of accepted candidates put together. */
  lemma KeysOfAppend(x: seq<string>, y: seq<string>, kind: KeyKind)
    ensures KeysOf(x + y, kind) == KeysOf(x, kind) + KeysOf(y, kind)
  {
    assert forall t :: t in x + y <==> t in x || t in y;
  }

  /** Checking the first `n` candidates of `a + b`, for `n` within `a`, checks those of `a`. */
  lemma {:induction false} KeptPrefixPrefix(a: seq<Candidate>, b: seq<Candidate>, seen: set<string>, kind: KeyKind, n: nat)
    requires n <= |a|
    ensures KeptPrefix(a + b, seen, kind, n) == KeptPrefix(a, seen, kind, n)
    decreases n
  {
    if n > 0 {
      KeptPrefixPrefix(a, b, seen, kind, n - 1);
      assert (a + b)[n - 1] == a[n - 1];
      KeptPrefixStep(a + b, seen, kind, n);
      KeptPrefixStep(a, seen, kind, n);
    }
  }

  /** One step of the check: `c` is appended to the accepted `prev` when it is usable and its key is new. */
  function Accept(prev: seq<string>, c: Candidate, seen: set<string>, kind: KeyKind): seq<string> {
    if Usable(c) && Key(kind, c.value) !in seen + KeysOf(prev, kind) then prev + [c.value] else prev
  }

  /** The check over `n` candidates is the check over `n - 1` followed by one step. */
  lemma KeptPrefixStep(cands: seq<Candidate>, seen: set<string>, kind: KeyKind, n: nat)
    requires 0 < n <= |cands|
    ensures KeptPrefix(cands, seen, kind, n) == Accept(KeptPrefix(cands, seen, kind, n - 1), cands[n - 1], seen, kind)
  {
  }

  /** A step after accepted `front` candidates is a step on the rest, with the front's keys known. */
  lemma AcceptAfter(front: seq<string>, rest: seq<string>, c: Candidate, seen: set<string>, kind: KeyKind)
    ensures Accept(front + rest, c, seen, kind) == front + Accept(rest, c, seen + KeysOf(front, kind), kind)
  {
    KeysOfAppend(front, rest, kind);
    assert seen + KeysOf(front + rest, kind) == seen + KeysOf(front, kind) + KeysOf(rest, kind);
    if c.Some? {
      assert front + rest + [c.value] == front + (rest + [c.value]);
    }
  }

  /**
    Checking `a` and then the first `m` candidates of `b`, against the keys known after
    `a`, is checking the first `n = |a| + m` candidates of `a + b`.
   */
  lemma {:induction false} KeptPrefixAppend(a: seq<Candidate>, b: seq<Candidate>, seen: set<string>, kind: KeyKind,
                                            ka: seq<string>, seen': set<string>, n: nat, m: nat)
    requires ka == Kept(a, seen, kind) && seen' == seen + KeysOf(ka, kind)
    requires m <= |b| && n == |a| + m
    ensures KeptPrefix(a + b, seen, kind, n) == ka + KeptPrefix(b, seen', kind, m)
    decreases m
  {
    if m == 0 {
      AppendBase(a, b, seen, kind, ka, seen', n);
    } else {
      KeptPrefixAppend(a, b, seen, kind, ka, seen', n - 1, m - 1);
      AppendStep(a, b, seen, kind, ka, seen', n, m);
    }
  }

  /** The base of `KeptPrefixAppend`: none of `b` yet. */
  lemma AppendBase(a: seq<Candidate>, b: seq<Candidate>, seen: set<string>, kind: KeyKind,
                   ka: seq<string>, seen': set<string>, n: nat)
    requires ka == Kept(a, seen, kind) && n == |a|
    ensures KeptPrefix(a + b, seen, kind, n) == ka + KeptPrefix(b, seen', kind, 0)
  {
    KeptPrefixPrefix(a, b, seen, kind, n);
    assert ka + [] == ka;
  }

  /** The step of `KeptPrefixAppend`: one more candidate of `b` on both sides. */
  lemma AppendStep(a: seq<Candidate>, b: seq<Candidate>, seen: set<string>, kind: KeyKind,
                   ka: seq<string>, seen': set<string>, n: nat, m: nat)
    requires seen' == seen + KeysOf(ka, kind)
    requires 0 < m <= |b| && n == |a| + m
    requires KeptPrefix(a + b, seen, kind, n - 1) == ka + KeptPrefix(b, seen', kind, m - 1)
    ensures KeptPrefix(a + b, seen, kind, n) == ka + KeptPrefix(b, seen', kind, m)
  {
    var kb := KeptPrefix(b, seen', kind, m - 1);
    var c := b[m - 1];
    assert (a + b)[n - 1] == c;
    KeptPrefixStep(a + b, seen, kind, n);
    KeptPrefixStep(b, seen', kind, m);
    AcceptAfter(ka, kb, c, seen, kind);
  }

  /** The accepted candidates of a list cut at `i`. */
  lemma KeptSplit(cands: seq<Candidate>, seen: set<string>, kind: KeyKind, i: nat)
    requires i <= |cands|
    ensures Kept(cands, seen, kind) ==
      Kept(cands[..i], seen, kind) + Kept(cands[i..], seen + KeysOf(Kept(cands[..i], seen, kind), kind), kind)
  {
    SplitJoin(cands, i);
    var ka := Kept(cands[..i], seen, kind);
    KeptPrefixAppend(cands[..i], cands[i..], seen, kind, ka, seen + KeysOf(ka, kind), |cands|, |cands| - i);
  }

  /** A single candidate is accepted exactly when it is usable and its key is not known. */
  lemma KeptSingle(c: Candidate, seen: set<string>, kind: KeyKind)
    ensures Kept([c], seen, kind) == if Usable(c) && Key(kind, c.value) !in seen then [c.value] else []
  {
    assert KeptPrefix([c], seen, kind, 0) == [];
    assert KeysOf([], kind) == {};
  }

  /**
    The check runs in reply order and the first candidate with a given key wins: the
    candidates accepted from a list cut anywhere are those accepted from the front, then
    those accepted from the back against the keys known after the front; and a single
    candidate is accepted exactly when it is usable and its key is not yet known.
   */
  lemma KeptSpec(cands: seq<Candidate>, seen: set<string>, kind: KeyKind)
    ensures forall i :: 0 <= i <= |cands| ==>
      Kept(cands, seen, kind) ==
        Kept(cands[..i], seen, kind) + Kept(cands[i..], seen + KeysOf(Kept(cands[..i], seen, kind), kind), kind)
    ensures forall c :: Kept([c], seen, kind) == if Usable(c) && Key(kind, c.value) !in seen then [c.value] else []
  {
    forall i | 0 <= i <= |cands|
      ensures Kept(cands, seen, kind) ==
        Kept(cands[..i], seen, kind) + Kept(cands[i..], seen + KeysOf(Kept(cands[..i], seen, kind), kind), kind)
    {
      KeptSplit(cands, seen, kind, i);
    }
    forall c
      ensures Kept([c], seen, kind) == if Usable(c) && Key(kind, c.value) !in seen then [c.value] else []
    {
      KeptSingle(c, seen, kind);
    }
  }

  /**
    The loop of the handlers: walks the candidates, skips null, blank and known ones,
    and pushes one child per accepted candidate under `parent`. It returns the children,
    the grown set of known keys and the next free id.
   */
  method CollectChildren(cands: seq<Candidate>, seen: set<string>, kind: KeyKind, firstId: nat, parent: nat)
    returns (children: seq<Node>, existing: set<string>, nextId: nat)
    ensures children == Children(Kept(cands, seen, kind), firstId, parent)
    ensures existing == seen + KeysOf(Kept(cands, seen, kind), kind)
    ensures nextId == firstId + |children|
  {
    children, existing, nextId := [], seen, firstId;
    ghost var kept: seq<string> := [];
    assert existing == seen + KeysOf(kept, kind) by {
      assert KeysOf(kept, kind) == {};
    }
    for i := 0 to |cands|
      invariant kept == KeptPrefix(cands, seen, kind, i)
      invariant children == Children(kept, firstId, parent)
      invariant existing == seen + KeysOf(kept, kind)
      invariant nextId == firstId + |kept|
    {
      KeptPrefixStep(cands, seen, kind, i + 1);
      children, existing, nextId, kept := CollectOne(cands[i], seen, kind, kept, children, existing, nextId, firstId, parent);
    }
  }

  /**
    One pass of the loop of `CollectChildren`: a null, blank or known candidate is skipped,
    any other one is pushed as the next child and its key becomes known.
   */
  method CollectOne(c: Candidate, seen: set<string>, kind: KeyKind, ghost kept: seq<string>,
                    children: seq<Node>, existing: set<string>, nextId: nat, firstId: nat, parent: nat)
    returns (children': seq<Node>, existing': set<string>, nextId': nat, ghost kept': seq<string>)
    requires children == Children(kept, firstId, parent)
    requires existing == seen + KeysOf(kept, kind)
    requires nextId == firstId + |kept|
    ensures kept' == Accept(kept, c, seen, kind)
    ensures children' == Children(kept', firstId, parent)
    ensures existing' == seen + KeysOf(kept', kind)
    ensures nextId' == firstId + |kept'|
  {
    children', existing', nextId', kept' := children, existing, nextId, kept;
    if c.Some? && !Blank(c.value) {
      var lower := Key(kind, c.value);
      if lower !in existing {
        children' := children + [Node(nextId, Trim(c.value), Some(parent))];
        existing' := existing + {lower};
        nextId' := nextId + 1;
        kept' := kept + [c.value];
        assert children' == Children(kept', firstId, parent) by {
          ChildrenSnoc(kept, c.value, firstId, parent);
        }
        assert existing' == seen + KeysOf(kept', kind) by {
          KeysOfSnoc(kept, c.value, kind);
        }
      }
    }
  }

  /** The non-blank strings among the first `n` candidates, in order and as received. */
  function NonBlankUpTo(cands: seq<Candidate>, n: nat): seq<string>
    requires n <= |cands|
  {
    if n == 0 then []
    else NonBlankUpTo(cands, n - 1) + (if Usable(cands[n - 1]) then [cands[n - 1].value] else [])
  }

  /**
    The non-blank strings among the candidates, in order and as received, with every
    repetition kept (the first keyword search does not deduplicate).
   */
  function NonBlank(cands: seq<Candidate>): seq<string> {
    NonBlankUpTo(cands, |cands|)
  }

  /** The filter over the first `n` candidates keeps each non-blank string as often as it occurs. */
  lemma {:induction false} NonBlankUpToSpec(cands: seq<Candidate>, n: nat)
    requires n <= |cands|
    ensures |NonBlankUpTo(cands, n)| <= n
    ensures forall s :: !Blank(s) ==> multiset(NonBlankUpTo(cands, n))[s] == multiset(cands[..n])[Some(s)]
    ensures forall s :: s in NonBlankUpTo(cands, n) ==> !Blank(s)
  {
    if n > 0 {
      NonBlankUpToSpec(cands, n - 1);
      assert cands[..n] == cands[..n - 1] + [cands[n - 1]];
    }
  }

  /** Filtering the first `n` values of `a + b`, for `n` within `a`, filters those of `a`. */
  lemma {:induction false} NonBlankUpToPrefix(a: seq<Candidate>, b: seq<Candidate>, n: nat)
    requires n <= |a|
    ensures NonBlankUpTo(a + b, n) == NonBlankUpTo(a, n)
  {
    if n > 0 {
      NonBlankUpToPrefix(a, b, n - 1);
      assert (a + b)[n - 1] == a[n - 1];
    }
  }

  /** Filtering `a` and then the first `m` values of `b` is filtering the first `|a| + m` values of `a + b`. */
  lemma {:induction false} NonBlankUpToAppend(a: seq<Candidate>, b: seq<Candidate>, m: nat)
    requires m <= |b|
    ensures NonBlankUpTo(a + b, |a| + m) == NonBlank(a) + NonBlankUpTo(b, m)
  {
    if m == 0 {
      NonBlankUpToPrefix(a, b, |a|);
    } else {
      NonBlankUpToAppend(a, b, m - 1);
      assert (a + b)[|a| + m - 1] == b[m - 1];
    }
  }

  /**
    Every non-blank candidate string is kept, as often as it occurs, and nothing else:
    no deduplication takes place. The order is the reply's: the filter of a list cut
    anywhere is that of the front followed by that of the back, and a single candidate
    gives its string exactly when it is non-blank.
   */
  lemma NonBlankSpec(cands: seq<Candidate>)
    ensures |NonBlank(cands)| <= |cands|
    ensures forall s :: !Blank(s) ==> multiset(NonBlank(cands))[s] == multiset(cands)[Some(s)]
    ensures forall s :: s in NonBlank(cands) ==> !Blank(s)
    ensures forall i :: 0 <= i <= |cands| ==> NonBlank(cands) == NonBlank(cands[..i]) + NonBlank(cands[i..])
    ensures forall c :: NonBlank([c]) == if Usable(c) then [c.value] else []
  {
    forall i | 0 <= i <= |cands|
      ensures NonBlank(cands) == NonBlank(cands[..i]) + NonBlank(cands[i..])
    {
      SplitJoin(cands, i);
      NonBlankUpToAppend(cands[..i], cands[i..], |cands| - i);
    }
    forall c
      ensures NonBlank([c]) == if Usable(c) then [c.value] else []
    {
      assert NonBlankUpTo([c], 0) == [];
    }
    NonBlankUpToSpec(cands, |cands|);
    assert cands[..|cands|] == cands;
  }
}
