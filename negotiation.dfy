/**
 * `DbpediaLite#negotiate_content` and the format switch of the `/search`
 * route: choosing a lookup key from an explicit format token or the first
 * entry of the request's Accept list, looking it up in a fixed alias table,
 * and filling in the response.
 *
 * The Accept list is given already split (its parsing belongs to the web
 * framework); the view renderer and the graph serializers are opaque and
 * appear only as tagged bodies.
 */
module Negotiation {
  import opened Wrappers

  /** The representations `negotiate_content` can serve. */
  datatype Format = Html | Json | N3 | NTriples | RdfXml

  /** One `when` branch of the `case format`: the keys it lists and the representation it selects. */
  datatype Branch = Branch(keys: seq<string>, format: Format)

  /** The branches of the `case`, in the order Ruby tries them. */
  const Branches: seq<Branch> := [
    Branch(["", "*/*", "html", "application/xml", "application/xhtml+xml", "text/html"], Html),
    Branch(["json", "application/json", "text/json"], Json),
    Branch(["n3", "ttl", "text/n3", "text/turtle", "application/turtle"], N3),
    Branch(["nt", "ntriples", "text/plain"], NTriples),
    Branch(["rdf", "xml", "rdfxml", "application/rdf+xml", "text/rdf"], RdfXml)
  ]

  /** The argument of `content_type` in each branch. */
  function ContentType(f: Format): string {
    match f
    case Html => "text/html"
    case Json => "application/json"
    case N3 => "text/n3"
    case NTriples => "text/plain"
    case RdfXml => "application/rdf+xml"
  }

  /** A response body: a rendered view, a serialization of the graph, or a literal text. */
  datatype Body =
    | Empty
    | Rendered(view: string)
    | Dumped(format: Format)
    | Message(text: string)
    | LabelsJson(labels: seq<string>)

  /** What a route decides: serve a body (perhaps with a content type), or halt with a status. */
  datatype Outcome = Served(contentType: Option<string>, body: Body) | Halted(status: nat, body: Body)

  /** The headers set on every negotiated response, before the `case`. */
  const CacheHeaders: map<string, string> := map["Vary" := "Accept", "Cache-Control" := "public,max-age=600"]

  /** The text of the 400 response for an unknown key. */
  function Unsupported(key: string): string {
    "Unsupported format: " + key + "\n"
  }

  /** `request.accept.first || ''` */
  function FirstAccepted(accept: seq<string>): string {
    if |accept| == 0 then "" else accept[0]
  }

  /**
   * The position of the first `;` at or after `from` where `/;.+$/` matches:
   * a `;` followed by at least one character other than a newline; `|s|` if
   * there is none.
   */
  function ParameterStart(s: string, from: nat): (i: nat)
    requires from <= |s|
    ensures from <= i <= |s|
    decreases |s| - from
  {
    if from + 1 >= |s| then |s|
    else if s[from] == ';' && s[from + 1] != '\n' then from
    else ParameterStart(s, from + 1)
  }

  /** Where `.+$` stops: the first newline at or after `from`, or the end. */
  function LineEnd(s: string, from: nat): (j: nat)
    requires from <= |s|
    ensures from <= j <= |s|
    decreases |s| - from
  {
    if from == |s| || s[from] == '\n' then from else LineEnd(s, from + 1)
  }

  /** `s.sub!(/;.+$/, '')`: the first match, from its `;` to the end of its line, is removed. */
  function StripParameters(s: string): string {
    var i := ParameterStart(s, 0);
    if i == |s| then s else s[..i] + s[LineEnd(s, i)..]
  }

  /** The key the `case` is applied to. */
  function LookupKey(format: string, accept: seq<string>): string {
    if format != "" then format else StripParameters(FirstAccepted(accept))
  }

  /** The `case`: the first branch that lists the key. */
  function Lookup(key: string, branches: seq<Branch>): Option<Format> {
    if |branches| == 0 then None
    else if key in branches[0].keys then Some(branches[0].format)
    else Lookup(key, branches[1..])
  }

  function Classify(key: string): Option<Format> {
    Lookup(key, Branches)
  }

  /** What `negotiate_content` makes of a request, apart from the headers it always sets. */
  function Negotiate(format: string, accept: seq<string>, htmlView: string): (o: Outcome)
    ensures o.Served? ==> (o.contentType.Some? &&
                           o.contentType.value in {"text/html", "application/json", "text/n3", "text/plain", "application/rdf+xml"})
    ensures o.Halted? <==> Classify(LookupKey(format, accept)).None?
    ensures o.Halted? ==> o == Halted(400, Message(Unsupported(LookupKey(format, accept))))
  {
    var key := LookupKey(format, accept);
    match Classify(key)
    case None => Halted(400, Message(Unsupported(key)))
    case Some(f) => Served(Some(ContentType(f)), if f == Html then Rendered(htmlView) else Dumped(f))
  }

  /** The framework's response object, which the route helpers change in place. */
  class Response {
    var status: nat
    var headers: map<string, string>
    var contentType: Option<string>
    var body: Body

    constructor ()
      ensures status == 200 && headers == map[] && contentType == None && body == Empty
    {
      status, headers, contentType, body := 200, map[], None, Empty;
    }

    /** `headers 'Name' => 'value', ...` */
    method SetHeaders(h: map<string, string>)
      modifies this`headers
      ensures headers == old(headers) + h
    {
      headers := headers + h;
    }

    /** `content_type 'type/subtype'` */
    method SetContentType(t: string)
      modifies this`contentType
      ensures contentType == Some(t)
    {
      contentType := Some(t);
    }

    /** The value a route returns becomes the body. */
    method SetBody(b: Body)
      modifies this`body
      ensures body == b
    {
      body := b;
    }

    /** `error code, text`: the status and the body are set and the route stops. */
    method Halt(code: nat, b: Body)
      modifies this`status, this`body
      ensures status == code && body == b
    {
      status, body := code, b;
    }

    /** `redirect location`: status 302 and a Location header; the route stops. */
    method Redirect(location: string)
      modifies this`status, this`headers
      ensures status == 302 && headers == old(headers)["Location" := location]
    {
      status := 302;
      headers := headers["Location" := location];
    }
  }

  /** `negotiate_content(graph, format, html_view)` */
  method NegotiateContent(response: Response, format: string, accept: seq<string>, htmlView: string)
    modifies response
    ensures response.headers == old(response.headers) + CacheHeaders
    ensures match Negotiate(format, accept, htmlView)
            case Served(t, b) =>
              response.contentType == t && response.body == b && response.status == old(response.status)
            case Halted(code, b) =>
              response.status == code && response.body == b && response.contentType == old(response.contentType)
  {
    var key := format;
    if key == "" {
      key := FirstAccepted(accept);
      key := StripParameters(key);
    }
    response.SetHeaders(CacheHeaders);
    match Classify(key)
    case Some(f) =>
      response.SetContentType(ContentType(f));
      response.SetBody(if f == Html then Rendered(htmlView) else Dumped(f));
    case None =>
      response.Halt(400, Message(Unsupported(key)));
  }

  /** The `case format` of the `/search` route, given the titles the search returned. */
  function SearchFormat(format: string, titles: seq<string>): (o: Outcome)
    ensures format in {"", "html"} ==> o == Served(None, Rendered("search"))
    ensures o.Halted? <==> format !in {"", "html", "json"}
    ensures o.Halted? ==> o == Halted(400, Message(Unsupported(format)))
    ensures format == "json" ==> o == Served(Some("text/json"), LabelsJson(titles))
  {
    if format == "" || format == "html" then Served(None, Rendered("search"))
    else if format == "json" then Served(Some("text/json"), LabelsJson(titles))
    else Halted(400, Message(Unsupported(format)))
  }

  /** One search hit (`result['title']`, `result['url']`). */
  datatype SearchResult = SearchResult(title: string, url: Option<string>)

  /** `title.gsub(' ', '_')` */
  function Underscored(title: string): (r: string)
    ensures |r| == |title|
    ensures forall i :: 0 <= i < |title| ==> r[i] == (if title[i] == ' ' then '_' else title[i])
  {
    if |title| == 0 then ""
    else [if title[0] == ' ' then '_' else title[0]] + Underscored(title[1..])
  }

  /** `"/titles/#{CGI::escape(title.gsub(' ','_'))}"`, the escaping function given. */
  function TitleUrl(title: string, cgiEscape: string -> string): string {
    "/titles/" + cgiEscape(Underscored(title))
  }

  /** The loop that sets `result['url']` on every hit, in place. */
  method AddTitleUrls(results: array<SearchResult>, cgiEscape: string -> string)
    modifies results
    ensures forall i :: 0 <= i < results.Length ==>
              results[i] == old(results[i]).(url := Some(TitleUrl(old(results[i]).title, cgiEscape)))
  {
    var i := 0;
    while i < results.Length
      invariant 0 <= i <= results.Length
      invariant forall k :: 0 <= k < i ==>
                  results[k] == old(results[k]).(url := Some(TitleUrl(old(results[k]).title, cgiEscape)))
      invariant forall k :: i <= k < results.Length ==> results[k] == old(results[k])
    {
      results[i] := results[i].(url := Some(TitleUrl(results[i].title, cgiEscape)));
      i := i + 1;
    }
  }

  /** The loop that builds the JSON answer: one `{:label => title}` per hit, in order. */
  method Labels(results: array<SearchResult>) returns (json: seq<string>)
    ensures |json| == results.Length
    ensures forall i :: 0 <= i < results.Length ==> json[i] == results[i].title
  {
    json := [];
    var i := 0;
    while i < results.Length
      invariant 0 <= i <= results.Length
      invariant |json| == i
      invariant forall k :: 0 <= k < i ==> json[k] == results[k].title
    {
      json := json + [results[i].title];
      i := i + 1;
    }
  }

  /**
   * The `/search` route after the search itself: a missing or empty term
   * redirects home; otherwise every hit gets its URL and the format decides
   * the answer.
   */
  method Search(response: Response, term: Option<string>, format: string,
                results: array<SearchResult>, cgiEscape: string -> string)
    modifies response, results
    ensures term.None? || term == Some("") ==>
              response.status == 302
              && response.headers == old(response.headers)["Cache-Control" := "public,max-age=600"]["Location" := "/"]
              && results[..] == old(results[..])
              && response.body == old(response.body) && response.contentType == old(response.contentType)
    ensures term.Some? && term != Some("") ==>
              && response.headers == old(response.headers)["Cache-Control" := "public,max-age=600"]
              && (forall i :: 0 <= i < results.Length ==>
                    results[i] == old(results[i]).(url := Some(TitleUrl(old(results[i]).title, cgiEscape))))
              && match SearchFormat(format, seq(results.Length, i requires 0 <= i < results.Length reads results => results[i].title))
                 case Served(t, b) =>
                   response.body == b && response.status == old(response.status)
                   && (t.Some? ==> response.contentType == t)
                   && (t.None? ==> response.contentType == old(response.contentType))
                 case Halted(code, b) =>
                   response.status == code && response.body == b && response.contentType == old(response.contentType)
  {
    response.SetHeaders(map["Cache-Control" := "public,max-age=600"]);
    if term.None? || term == Some("") {
      response.Redirect("/");
      return;
    }
    AddTitleUrls(results, cgiEscape);
    if format == "" || format == "html" {
      response.SetBody(Rendered("search"));
    } else if format == "json" {
      var json := Labels(results);
      response.SetContentType("text/json");
      response.SetBody(LabelsJson(json));
    } else {
      response.Halt(400, Message(Unsupported(format)));
    }
  }
}

module NegotiationProperties {
  import opened Wrappers
  import opened Negotiation

  predicate NoNewline(s: string) {
    forall i :: 0 <= i < |s| ==> s[i] != '\n'
  }

  /** The position of the first `c` at or after `from`, or `|s|`. */
  function IndexFrom(s: string, c: char, from: nat): (i: nat)
    requires from <= |s|
    ensures from <= i <= |s|
    ensures i < |s| ==> s[i] == c
    ensures forall j :: from <= j < i ==> s[j] != c
    decreases |s| - from
  {
    if from == |s| || s[from] == c then from else IndexFrom(s, c, from + 1)
  }

  lemma {:induction false} ParameterStartWithoutNewlines(s: string, from: nat)
    requires from <= |s| && NoNewline(s)
    ensures ParameterStart(s, from) == if IndexFrom(s, ';', from) + 1 < |s| then IndexFrom(s, ';', from) else |s|
    decreases |s| - from
  {
    if from + 1 < |s| && s[from] != ';' {
      ParameterStartWithoutNewlines(s, from + 1);
    }
  }

  lemma {:induction false} LineEndWithoutNewlines(s: string, from: nat)
    requires from <= |s| && NoNewline(s)
    ensures LineEnd(s, from) == |s|
    decreases |s| - from
  {
    if from < |s| {
      LineEndWithoutNewlines(s, from + 1);
    }
  }

  /**
   * On a single-line key, `sub!(/;.+$/, '')` cuts at the first `;` when at
   * least one character follows it; a bare trailing `;` stays, and a key
   * without `;` is unchanged.
   */
  lemma StripParametersCutsAtFirstSemicolon(s: string)
    requires NoNewline(s)
    ensures StripParameters(s) == if IndexFrom(s, ';', 0) + 1 < |s| then s[..IndexFrom(s, ';', 0)] else s
  {
    ParameterStartWithoutNewlines(s, 0);
    var i := ParameterStart(s, 0);
    if i < |s| {
      LineEndWithoutNewlines(s, i);
      assert s[|s|..] == [];
    }
  }

  /** `type;params` becomes `type` whenever the parameters are not empty. */
  lemma StripParametersDropsParameters(mediaType: string, params: string)
    requires NoNewline(mediaType + ";" + params) && ';' !in mediaType && params != ""
    ensures StripParameters(mediaType + ";" + params) == mediaType
  {
    var s := mediaType + ";" + params;
    StripParametersCutsAtFirstSemicolon(s);
    assert s[|mediaType|] == ';';
    assert forall j :: 0 <= j < |mediaType| ==> s[j] == mediaType[j];
    assert IndexFrom(s, ';', 0) == |mediaType|;
    assert s[..|mediaType|] == mediaType;
  }

  /** A bare trailing `;` is not removed: `.+` needs a character after it. */
  lemma StripParametersKeepsBareSemicolon(mediaType: string)
    requires NoNewline(mediaType + ";") && ';' !in mediaType
    ensures StripParameters(mediaType + ";") == mediaType + ";"
  {
    var s := mediaType + ";";
    StripParametersCutsAtFirstSemicolon(s);
    assert s[|mediaType|] == ';';
    assert forall j :: 0 <= j < |mediaType| ==> s[j] == mediaType[j];
    assert IndexFrom(s, ';', 0) == |mediaType|;
  }

  /** A non-empty explicit format is the key as given, and the Accept list is not consulted. */
  lemma ExplicitFormatIsUsedVerbatim(format: string, accept1: seq<string>, accept2: seq<string>, htmlView: string)
    requires format != ""
    ensures LookupKey(format, accept1) == format
    ensures Negotiate(format, accept1, htmlView) == Negotiate(format, accept2, htmlView)
  {
  }

  /** Without an explicit format only the first Accept entry counts, with its parameters stripped. */
  lemma OnlyFirstAcceptEntryCounts(first: string, rest1: seq<string>, rest2: seq<string>, htmlView: string)
    ensures LookupKey("", [first] + rest1) == StripParameters(first)
    ensures Negotiate("", [first] + rest1, htmlView) == Negotiate("", [first] + rest2, htmlView)
  {
  }

  /** No key is listed in two branches. */
  predicate DisjointKeys(bs: seq<Branch>) {
    forall i, j, k :: 0 <= i < j < |bs| && k in bs[i].keys ==> k !in bs[j].keys
  }

  predicate Apart(a: seq<string>, b: seq<string>) {
    forall k :: k in a ==> k !in b
  }

  lemma BranchesAreDisjoint()
    ensures DisjointKeys(Branches)
    ensures forall i, j :: 0 <= i < j < |Branches| ==> Branches[i].format != Branches[j].format
  {
    var b := Branches;
    assert Apart(b[0].keys, b[1].keys) && Apart(b[0].keys, b[2].keys) by { HtmlKeysApart(); }
    assert Apart(b[0].keys, b[3].keys) && Apart(b[0].keys, b[4].keys) by { HtmlKeysApart(); }
    assert Apart(b[1].keys, b[2].keys) && Apart(b[1].keys, b[3].keys) && Apart(b[1].keys, b[4].keys) by { JsonKeysApart(); }
    assert Apart(b[2].keys, b[3].keys) && Apart(b[2].keys, b[4].keys) by { TurtleKeysApart(); }
    assert Apart(b[3].keys, b[4].keys) by { NTriplesKeysApart(); }
  }

  lemma HtmlKeysApart()
    ensures Apart(Branches[0].keys, Branches[1].keys) && Apart(Branches[0].keys, Branches[2].keys)
    ensures Apart(Branches[0].keys, Branches[3].keys) && Apart(Branches[0].keys, Branches[4].keys)
  {
    HtmlApartFrom(1);
    HtmlApartFrom(2);
    HtmlApartFrom(3);
    HtmlApartFrom(4);
  }

  lemma HtmlApartFrom(j: nat)
    requires 1 <= j < |Branches|
    ensures Apart(Branches[0].keys, Branches[j].keys)
  {
    var html := Branches[0].keys;
    var other := Branches[j].keys;
    forall k | k in html
      ensures k !in other
    {
    }
  }

  lemma JsonKeysApart()
    ensures Apart(Branches[1].keys, Branches[2].keys) && Apart(Branches[1].keys, Branches[3].keys)
    ensures Apart(Branches[1].keys, Branches[4].keys)
  {
  }

  lemma TurtleKeysApart()
    ensures Apart(Branches[2].keys, Branches[3].keys) && Apart(Branches[2].keys, Branches[4].keys)
  {
  }

  lemma NTriplesKeysApart()
    ensures Apart(Branches[3].keys, Branches[4].keys)
  {
  }

  /** `Lookup` finds a branch listing the key, and finds none only when no branch lists it. */
  lemma {:induction false} LookupFindsListingBranch(key: string, bs: seq<Branch>)
    ensures Lookup(key, bs).None? <==> forall i :: 0 <= i < |bs| ==> key !in bs[i].keys
    ensures Lookup(key, bs).Some? ==>
              exists i :: 0 <= i < |bs| && key in bs[i].keys && bs[i].format == Lookup(key, bs).value
  {
    if |bs| > 0 && key !in bs[0].keys {
      var rest := bs[1..];
      LookupFindsListingBranch(key, rest);
      assert forall i :: 1 <= i < |bs| ==> bs[i] == rest[i - 1];
      if Lookup(key, rest).Some? {
        var i :| 0 <= i < |rest| && key in rest[i].keys && rest[i].format == Lookup(key, rest).value;
        assert bs[i + 1] == rest[i];
      }
    }
  }

  /** With disjoint branches, the branch chosen is the one that lists the key. */
  lemma LookupIsMembership(key: string, bs: seq<Branch>, i: nat)
    requires DisjointKeys(bs) && i < |bs| && key in bs[i].keys
    ensures Lookup(key, bs) == Some(bs[i].format)
  {
    LookupFindsListingBranch(key, bs);
    var j :| 0 <= j < |bs| && key in bs[j].keys && bs[j].format == Lookup(key, bs).value;
    assert i == j;
  }

  /** A key listed by a branch is served with that branch's content type and body. */
  lemma NegotiateServesListingBranch(format: string, accept: seq<string>, htmlView: string, i: nat)
    requires i < |Branches| && LookupKey(format, accept) in Branches[i].keys
    ensures Negotiate(format, accept, htmlView)
         == Served(Some(ContentType(Branches[i].format)),
                   if Branches[i].format == Html then Rendered(htmlView) else Dumped(Branches[i].format))
  {
    BranchesAreDisjoint();
    LookupIsMembership(LookupKey(format, accept), Branches, i);
  }

  /** Branches that list disjoint keys may be tried in any order: the outcome is the same. */
  lemma LookupIgnoresOrder(key: string, bs1: seq<Branch>, bs2: seq<Branch>)
    requires DisjointKeys(bs1) && DisjointKeys(bs2)
    requires forall b :: b in bs1 <==> b in bs2
    ensures Lookup(key, bs1) == Lookup(key, bs2)
  {
    LookupFindsListingBranch(key, bs1);
    LookupFindsListingBranch(key, bs2);
    if Lookup(key, bs1).Some? {
      var i :| 0 <= i < |bs1| && key in bs1[i].keys && bs1[i].format == Lookup(key, bs1).value;
      assert bs1[i] in bs2;
      var j :| 0 <= j < |bs2| && bs2[j] == bs1[i];
      LookupIsMembership(key, bs2, j);
    } else {
      forall j | 0 <= j < |bs2| ensures key !in bs2[j].keys {
        assert bs2[j] in bs1;
        var i :| 0 <= i < |bs1| && bs1[i] == bs2[j];
        assert key !in bs1[i].keys;
      }
    }
  }

  /**
   * Every accepted key yields exactly one representation, whatever order the
   * branches of the `case` are tried in.
   */
  lemma ClassifyIgnoresBranchOrder(key: string, reordered: seq<Branch>)
    requires DisjointKeys(reordered)
    requires forall b :: b in reordered <==> b in Branches
    ensures Lookup(key, reordered) == Classify(key)
  {
    BranchesAreDisjoint();
    LookupIgnoresOrder(key, reordered, Branches);
  }

  /** The HTML keys, including the empty key, select `text/html`; so does an empty request. */
  lemma HtmlIsTheDefault(htmlView: string)
    ensures forall k :: k in ["", "*/*", "html", "application/xml", "application/xhtml+xml", "text/html"]
              ==> Classify(k) == Some(Html)
    ensures Negotiate("", [], htmlView) == Served(Some("text/html"), Rendered(htmlView))
  {
    assert StripParameters("") == "";
  }

  /** The other four branches, and a key outside all of them. */
  lemma ClassifyOtherBranches()
    ensures forall k :: k in ["json", "application/json", "text/json"] ==> Classify(k) == Some(Json)
    ensures forall k :: k in ["n3", "ttl", "text/n3", "text/turtle", "application/turtle"] ==> Classify(k) == Some(N3)
    ensures forall k :: k in ["nt", "ntriples", "text/plain"] ==> Classify(k) == Some(NTriples)
    ensures forall k :: k in ["rdf", "xml", "rdfxml", "application/rdf+xml", "text/rdf"] ==> Classify(k) == Some(RdfXml)
  {
    BranchesAreDisjoint();
    forall k | k in Branches[1].keys ensures Classify(k) == Some(Json) { LookupIsMembership(k, Branches, 1); }
    forall k | k in Branches[2].keys ensures Classify(k) == Some(N3) { LookupIsMembership(k, Branches, 2); }
    forall k | k in Branches[3].keys ensures Classify(k) == Some(NTriples) { LookupIsMembership(k, Branches, 3); }
    forall k | k in Branches[4].keys ensures Classify(k) == Some(RdfXml) { LookupIsMembership(k, Branches, 4); }
  }

  /** An unknown key is answered with 400 and the key echoed back. */
  lemma UnknownFormatIsRejected(htmlView: string)
    ensures Negotiate("bogus", [], htmlView) == Halted(400, Message("Unsupported format: bogus\n"))
  {
    forall i | 0 <= i < |Branches| ensures "bogus" !in Branches[i].keys {
    }
    LookupFindsListingBranch("bogus", Branches);
    assert LookupKey("bogus", []) == "bogus";
    assert Unsupported("bogus") == "Unsupported format: bogus\n";
  }

  /** Only the first Accept entry is consulted, and its parameters are stripped before the lookup. */
  lemma WeightedAcceptListSelectsFirstEntry(htmlView: string)
    ensures Negotiate("", ["application/json;q=0.9", "text/html;q=0.1"], htmlView)
         == Served(Some("application/json"), Dumped(Json))
  {
    assert "application/json;q=0.9" == "application/json" + ";" + "q=0.9";
    StripParametersDropsParameters("application/json", "q=0.9");
    ClassifyOtherBranches();
  }
}
