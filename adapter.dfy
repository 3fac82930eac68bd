/**
  The search adapter: the three backend replies (keyword search, username lookup,
  email check) and how `searchUrlsFrom` turns a reply into what the handlers read.
  The HTTP request itself is not modelled; a reply is given as `Option<Body>`, where
  `None` is a failed request, a body that is not JSON, or a JSON `null` (all three end
  in the same result in every mode).
 */
module Adapter {
  import opened Wrappers

  /** The three search modes of the mode selector. */
  datatype Mode = Keyword | Username | Email

  /** A value where a URL or a name is expected: a string, or `None` for null or undefined. */
  type Candidate = Option<string>

  /** JavaScript truthiness of such a value: present and not the empty string. */
  predicate Truthy(c: Candidate) {
    c.Some? && c.value != ""
  }

  /** JavaScript's `a || b`: `a` when it is truthy, `b` otherwise. */
  function Or(a: Candidate, b: Candidate): Candidate {
    if Truthy(a) then a else b
  }

  /** The URL-like fields of a result or site record (`url`, `url_user`, `url_main`). */
  datatype UrlFields = UrlFields(url: Candidate, urlUser: Candidate, urlMain: Candidate)

  /** One element of a JSON array of results: a string, an object, or `null`. */
  datatype Entry = Text(text: string) | Record(fields: UrlFields) | Null

  /**
    The properties of a JSON object that the node map reads. An array-valued property is
    `Some` only when it holds an array (`Array.isArray`); otherwise it reads as absent.
   */
  datatype Fields = Fields(
    urls: Option<seq<Candidate>>,
    results: Option<seq<Entry>>,
    username: Candidate,
    sitesFound: Option<seq<UrlFields>>,
    email: Candidate,
    platformsFound: Option<seq<Candidate>>)

  /** An object with none of these properties; also what an array answers for each of them. */
  const NoFields := Fields(None, None, None, None, None, None)

  /** A parsed JSON reply: a bare array, or an object. */
  datatype Body = ArrayBody(entries: seq<Entry>) | ObjectBody(fields: Fields)

  /**
    What `searchUrlsFrom` resolves to: a list of candidate URLs (keyword mode), the reply
    object itself (username and email modes), or `null` (username and email modes, failure).
   */
  datatype Lookup = Urls(urls: seq<Candidate>) | Data(body: Body) | NoData

  /** `r.url || r.url_user || r.url_main`. */
  function FirstUrl(f: UrlFields): Candidate {
    Or(Or(f.url, f.urlUser), f.urlMain)
  }

  /** `site.url_user || site.url_main`. */
  function SiteUrl(f: UrlFields): Candidate {
    Or(f.urlUser, f.urlMain)
  }

  /** The URL a `results` element maps to (a string element has no `url` property). */
  function ResultUrl(e: Entry): Candidate {
    match e
    case Text(_) => None
    case Record(f) => FirstUrl(f)
    case Null => None
  }

  /** The URL an element of a bare array maps to: a string is kept as it is. */
  function ItemUrl(e: Entry): Candidate {
    match e
    case Text(s) => Some(s)
    case Record(f) => FirstUrl(f)
    case Null => None
  }

  /**
    The keyword-mode list read from a reply: `urls` when it is an array, else `results`
    mapped through `FirstUrl`, else the bare array mapped through `ItemUrl`, else empty.
    Reading a property of a `null` element throws, and the catch turns that into `[]`.
   */
  function KeywordUrls(b: Body): seq<Candidate>
  {
    match b
    case ObjectBody(f) =>
      if f.urls.Some? then f.urls.value
      else if f.results.Some? then
        (if Null in f.results.value then []
         else seq(|f.results.value|, i requires 0 <= i < |f.results.value| => ResultUrl(f.results.value[i])))
      else []
    case ArrayBody(es) =>
      if Null in es then [] else seq(|es|, i requires 0 <= i < |es| => ItemUrl(es[i]))
  }

  /**
    `searchUrlsFrom(keyword, mode)` once the request has been answered. Keyword mode always
    yields a list (an empty one when the request failed); username and email modes hand
    back the reply unchanged, or `null` when the request failed.
   */
  function SearchUrlsFrom(mode: Mode, fetched: Option<Body>): Lookup
  {
    if mode == Keyword then
      Urls(if fetched.None? then [] else KeywordUrls(fetched.value))
    else if fetched.None? then NoData
    else Data(fetched.value)
  }

  /**
    The object a username or email handler reads its properties from: `None` for `null`,
    and `NoFields` for an array, on which every such property is undefined.
   */
  function IdentityFields(l: Lookup): Option<Fields> {
    match l
    case NoData => None
    case Data(ObjectBody(f)) => Some(f)
    case Data(ArrayBody(_)) => Some(NoFields)
    case Urls(_) => Some(NoFields)
  }

  /**
    The keyword list is taken from the first of `urls`, `results` and the bare array that
    is present, with one URL per element, and is empty when an element it reads is `null`.
   */
  lemma KeywordUrlsShape(b: Body)
    ensures var r := KeywordUrls(b);
      && (b.ObjectBody? && b.fields.urls.Some? ==> r == b.fields.urls.value)
      && (b.ObjectBody? && b.fields.urls.None? && b.fields.results.Some? && Null !in b.fields.results.value ==>
            |r| == |b.fields.results.value| &&
            forall i :: 0 <= i < |r| ==> r[i] == ResultUrl(b.fields.results.value[i]))
      && (b.ArrayBody? && Null !in b.entries ==>
            |r| == |b.entries| && forall i :: 0 <= i < |r| ==> r[i] == ItemUrl(b.entries[i]))
      && (b.ArrayBody? && Null in b.entries ==> r == [])
      && (b.ObjectBody? && b.fields.urls.None? && (b.fields.results.None? || Null in b.fields.results.value) ==> r == [])
  {
  }

  /**
    Keyword mode always yields a list, empty when the request failed; the other modes
    yield the reply itself, or nothing exactly when the request failed.
   */
  lemma SearchUrlsFromShape(mode: Mode, fetched: Option<Body>)
    ensures var r := SearchUrlsFrom(mode, fetched);
      && (mode == Keyword <==> r.Urls?)
      && (mode == Keyword && fetched.None? ==> r.urls == [])
      && (mode != Keyword ==> (r.NoData? <==> fetched.None?))
      && (mode != Keyword && fetched.Some? ==> r == Data(fetched.value))
  {
  }

  /** `u` is one of the URL-like fields of a record. */
  predicate FieldOf(f: UrlFields, u: string) {
    f.url == Some(u) || f.urlUser == Some(u) || f.urlMain == Some(u)
  }

  /**
    `u` is written in the reply where the keyword list can read it: an element of `urls`,
    a URL-like field of a `results` record, or a string or a URL-like field of a record
    of the bare array.
   */
  predicate InReply(b: Body, u: string) {
    match b
    case ObjectBody(f) =>
      (f.urls.Some? && Some(u) in f.urls.value) ||
      (f.results.Some? &&
       exists i :: 0 <= i < |f.results.value| && f.results.value[i].Record? && FieldOf(f.results.value[i].fields, u))
    case ArrayBody(es) =>
      exists i :: 0 <= i < |es| && (es[i] == Text(u) || (es[i].Record? && FieldOf(es[i].fields, u)))
  }

  /** The `||` chain only ever yields one of the record's own fields. */
  lemma FirstUrlFrom(f: UrlFields, u: string)
    requires FirstUrl(f) == Some(u)
    ensures FieldOf(f, u)
  {
  }

  /** Every URL of the keyword list is written in the reply; none is made up. */
  lemma KeywordUrlsFromReply(b: Body)
    ensures forall u :: Some(u) in KeywordUrls(b) ==> InReply(b, u)
  {
    forall u | Some(u) in KeywordUrls(b)
      ensures InReply(b, u)
    {
      var r := KeywordUrls(b);
      var i :| 0 <= i < |r| && r[i] == Some(u);
      match b
      case ObjectBody(f) =>
        if f.urls.None? {
          var e := f.results.value[i];
          assert ResultUrl(e) == Some(u);
          FirstUrlFrom(e.fields, u);
        }
      case ArrayBody(es) =>
        assert ItemUrl(es[i]) == Some(u);
        if es[i].Record? {
          FirstUrlFrom(es[i].fields, u);
        }
    }
  }

  /**
    What the handlers read from `searchUrlsFrom`: in keyword mode, only URLs written in a
    reply that arrived; in the other modes, the reply's own fields, an array reading as
    an object without them, and nothing exactly when the request failed.
   */
  lemma SearchUrlsFromReply(mode: Mode, fetched: Option<Body>)
    ensures forall u :: mode == Keyword && Some(u) in SearchUrlsFrom(mode, fetched).urls ==>
      fetched.Some? && InReply(fetched.value, u)
    ensures mode != Keyword ==>
      var data := IdentityFields(SearchUrlsFrom(mode, fetched));
      && (data.None? <==> fetched.None?)
      && (fetched.Some? && fetched.value.ObjectBody? ==> data == Some(fetched.value.fields))
      && (fetched.Some? && fetched.value.ArrayBody? ==> data == Some(NoFields))
  {
    if fetched.Some? {
      KeywordUrlsFromReply(fetched.value);
    }
  }

  /** The `||` chain picks the first truthy field, and is truthy iff one of them is. */
  lemma FirstUrlPicksFirstTruthy(f: UrlFields)
    ensures Truthy(FirstUrl(f)) <==> Truthy(f.url) || Truthy(f.urlUser) || Truthy(f.urlMain)
    ensures Truthy(f.url) ==> FirstUrl(f) == f.url
    ensures !Truthy(f.url) && Truthy(f.urlUser) ==> FirstUrl(f) == f.urlUser
    ensures !Truthy(f.url) && !Truthy(f.urlUser) ==> FirstUrl(f) == f.urlMain
  {
  }
}
