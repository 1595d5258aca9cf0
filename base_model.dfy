/**
 * `BaseModel`, the common base of the resources the site publishes: an
 * attribute filter that drops unknown keys from the argument hash, and the
 * identifiers and paths built from `identifier_path` and `pageid`.
 *
 * Attribute values are modelled as strings (they are only ever interpolated
 * into URIs and paths here), hash keys as the symbols' names, and
 * `RDF::URI.parse` as the identity on strings. A string key and a symbol key
 * with the same name are therefore one key here, while Ruby keeps them apart.
 */
module BaseModels {
  import opened Wrappers
  import opened RubyHash

  /** The class-level `identifier_path` when a subclass does not set its own. */
  const DefaultIdentifierPath := "base"

  const Site := "http://dbpedialite.org"
  const WikipediaPrefix := "http://en.wikipedia.org/wiki/"
  const DbpediaPrefix := "http://dbpedia.org/resource/"

  /** The attributes `has` declares on every model. */
  const Attributes: set<string> := {"pageid", "title", "displaytitle"}

  /**
   * The public methods `BaseModel` itself defines, which `respond_to?` also
   * answers for. The instance `load` comes from a subclass; it and the public
   * methods of `Object`, `Kernel` and Doodle (`hash`, `class`, `doodle`, ...)
   * and a subclass's own attributes and methods are passed as `extra`.
   */
  const Methods: set<string> :=
    {"uri", "doc_uri", "doc_uri=", "doc_path", "escaped_title", "wikipedia_uri", "dbpedia_uri", "update"}

  /** The first argument of `new`: a scalar page id, or a hash of attributes. */
  datatype PageIdArg = Scalar(id: string) | HashArg(attrs: seq<(string, string)>)

  /** The entries `initialize` merges into `args`. */
  function PageIdEntries(pageid: PageIdArg): seq<(string, string)> {
    match pageid
    case Scalar(id) => [("pageid", id)]
    case HashArg(attrs) => attrs
  }

  /** `args` after `merge!` of the page id and after `update` has dropped every key outside `responds`. */
  function Prepared(args: seq<(string, string)>, pageid: PageIdArg, responds: set<string>): seq<(string, string)> {
    Restrict(Merge(args, PageIdEntries(pageid)), responds)
  }

  /** `"http://dbpedialite.org/#{identifier_path}/#{pageid}#id"` */
  function UriFor(identifierPath: string, pageid: string): string {
    Site + "/" + identifierPath + "/" + pageid + "#id"
  }

  /** The default of `doc_uri`: the same template without the fragment. */
  function DocUriFor(identifierPath: string, pageid: string): string {
    Site + "/" + identifierPath + "/" + pageid
  }

  /** `doc_path(format)`: a truthy format, even `""`, adds `.` and the format. */
  function DocPathFor(identifierPath: string, pageid: string, format: Option<string>): string {
    "/" + identifierPath + "/" + pageid + (match format case None => "" case Some(f) => "." + f)
  }

  class BaseModel {
    /** `self.class.identifier_path` */
    const identifierPath: string
    /** The names `respond_to?` answers true for. */
    const responds: set<string>
    /** `WikipediaApi.escape_title`, which is not part of this model. */
    const escapeTitle: string -> string

    var pageid: string
    var title: Option<string>
    var displaytitle: Option<string>

    /** `@uri`, `@doc_uri`, `@wikipedia_uri` and `@dbpedia_uri`; `None` while unset. */
    var uriMemo: Option<string>
    var docUriField: Option<string>
    var wikipediaUriMemo: Option<string>
    var dbpediaUriMemo: Option<string>

    /**
     * `new(pageid, args)`: the page id is merged into `args`, `args` is
     * filtered by `update` and the attributes are set from what remains. The
     * caller's `args` hash is changed in place. A `pageid` attribute must
     * survive, as the framework refuses a model without one.
     */
    constructor (pageid: PageIdArg, args: Hash<string>, identifierPath: string, extra: set<string>,
                 escapeTitle: string -> string)
      requires args.Valid() && UniqueKeys(PageIdEntries(pageid))
      requires Get(Merge(args.entries, PageIdEntries(pageid)), "pageid").Some?
      modifies args
      ensures this.identifierPath == identifierPath && this.escapeTitle == escapeTitle
      ensures responds == Attributes + Methods + extra
      ensures args.Valid() && args.entries == Prepared(old(args.entries), pageid, responds)
      ensures Some(this.pageid) == Get(args.entries, "pageid")
      ensures title == Get(args.entries, "title") && displaytitle == Get(args.entries, "displaytitle")
      ensures uriMemo == None && docUriField == None && wikipediaUriMemo == None && dbpediaUriMemo == None
    {
      this.identifierPath := identifierPath;
      this.responds := Attributes + Methods + extra;
      this.escapeTitle := escapeTitle;
      this.pageid := "";
      title, displaytitle := None, None;
      uriMemo, docUriField, wikipediaUriMemo, dbpediaUriMemo := None, None, None, None;
      new;
      var merged := Merge(args.entries, PageIdEntries(pageid));
      args.MergeInPlace(PageIdEntries(pageid));
      assert "pageid" in responds by {
        assert "pageid" in Attributes;
      }
      RestrictGet(merged, responds, "pageid");
      Update(args);
      assert args.entries == Restrict(merged, responds);
    }

    /**
     * `update(args)`: every key the model does not respond to is deleted
     * from `args` in place, in hash order, and the declared attributes that
     * remain are assigned; absent ones keep their values.
     */
    method Update(args: Hash<string>)
      requires args.Valid()
      modifies args, this`pageid, this`title, this`displaytitle
      ensures args.Valid() && args.entries == Restrict(old(args.entries), responds)
      ensures pageid == Get(args.entries, "pageid").GetOr(old(pageid))
      ensures title == (if Get(args.entries, "title").Some? then Get(args.entries, "title") else old(title))
      ensures displaytitle
           == (if Get(args.entries, "displaytitle").Some? then Get(args.entries, "displaytitle") else old(displaytitle))
    {
      var e := args.entries;
      var i := 0;
      while i < |e|
        invariant 0 <= i <= |e|
        invariant args.Valid() && args.entries == Restrict(e[..i], responds) + e[i..]
        modifies args
      {
        RestrictStep(e, i, responds);
        if e[i].0 !in responds {
          args.Remove(e[i].0);
        }
        i := i + 1;
      }
      assert e[..|e|] == e;
      AssignAttributes(args.entries);
    }

    /** `doodle.update(args)`: the declared attributes present in the hash are assigned; the others keep their values. */
    method AssignAttributes(entries: seq<(string, string)>)
      modifies this`pageid, this`title, this`displaytitle
      ensures pageid == Get(entries, "pageid").GetOr(old(pageid))
      ensures title == (if Get(entries, "title").Some? then Get(entries, "title") else old(title))
      ensures displaytitle
           == (if Get(entries, "displaytitle").Some? then Get(entries, "displaytitle") else old(displaytitle))
    {
      var newPageid, newTitle, newDisplaytitle :=
        Get(entries, "pageid"), Get(entries, "title"), Get(entries, "displaytitle");
      if newPageid.Some? {
        pageid := newPageid.value;
      }
      if newTitle.Some? {
        title := newTitle;
      }
      if newDisplaytitle.Some? {
        displaytitle := newDisplaytitle;
      }
    }

    /** `uri`: computed on first use and kept from then on, even if `pageid` changes later. */
    method Uri() returns (u: string)
      modifies this`uriMemo
      ensures old(uriMemo).Some? ==> u == old(uriMemo).value && uriMemo == old(uriMemo)
      ensures old(uriMemo).None? ==> u == UriFor(identifierPath, pageid) && uriMemo == Some(u)
    {
      if uriMemo.None? {
        uriMemo := Some(UriFor(identifierPath, pageid));
      }
      u := uriMemo.value;
    }

    /** `doc_uri = uri`, where `uri` has already been turned into its string. */
    method SetDocUri(uri: string)
      modifies this`docUriField
      ensures docUriField == Some(uri)
    {
      docUriField := Some(uri);
    }

    /** `doc_uri`: the assigned document URI, else the resource URI without its `#id`. */
    function DocUri(): (u: string)
      reads this
      ensures docUriField.Some? ==> u == docUriField.value
      ensures docUriField.None? ==> u + "#id" == UriFor(identifierPath, pageid)
    {
      match docUriField
      case Some(u0) => u0
      case None => DocUriFor(identifierPath, pageid)
    }

    /** `doc_path(format)` */
    function DocPath(format: Option<string>): (p: string)
      reads this
      ensures Site + p == DocUriFor(identifierPath, pageid) + (match format case None => "" case Some(f) => "." + f)
    {
      DocPathFor(identifierPath, pageid, format)
    }

    /** `escaped_title`: nil when there is no title. */
    function EscapedTitle(): (t: Option<string>)
      reads this
      ensures t.None? <==> title.None?
      ensures title.Some? ==> t == Some(escapeTitle(title.value))
    {
      match title
      case None => None
      case Some(s) => Some(escapeTitle(s))
    }

    /** `wikipedia_uri`: a nil escaped title interpolates as `""`; kept after first use. */
    method WikipediaUri() returns (u: string)
      modifies this`wikipediaUriMemo
      ensures old(wikipediaUriMemo).Some? ==> u == old(wikipediaUriMemo).value && wikipediaUriMemo == old(wikipediaUriMemo)
      ensures old(wikipediaUriMemo).None? ==> u == WikipediaPrefix + EscapedTitle().GetOr("") && wikipediaUriMemo == Some(u)
    {
      if wikipediaUriMemo.None? {
        wikipediaUriMemo := Some(WikipediaPrefix + EscapedTitle().GetOr(""));
      }
      u := wikipediaUriMemo.value;
    }

    /** `dbpedia_uri`: as `wikipedia_uri`, under the DBpedia resource namespace. */
    method DbpediaUri() returns (u: string)
      modifies this`dbpediaUriMemo
      ensures old(dbpediaUriMemo).Some? ==> u == old(dbpediaUriMemo).value && dbpediaUriMemo == old(dbpediaUriMemo)
      ensures old(dbpediaUriMemo).None? ==> u == DbpediaPrefix + EscapedTitle().GetOr("") && dbpediaUriMemo == Some(u)
    {
      if dbpediaUriMemo.None? {
        dbpediaUriMemo := Some(DbpediaPrefix + EscapedTitle().GetOr(""));
      }
      u := dbpediaUriMemo.value;
    }

    /**
     * `BaseModel.load(pageid)`: a new model with no other arguments, returned
     * when its own `load` succeeds (`loaded`, which stands for the subclass's
     * fetch from the network) and nil otherwise.
     */
    static method Load(pageid: PageIdArg, identifierPath: string, extra: set<string>,
                       escapeTitle: string -> string, loaded: bool) returns (obj: BaseModel?)
      requires UniqueKeys(PageIdEntries(pageid)) && Get(PageIdEntries(pageid), "pageid").Some?
      ensures obj != null <==> loaded
      ensures obj != null ==> fresh(obj) && obj.identifierPath == identifierPath
                              && Some(obj.pageid) == Get(PageIdEntries(pageid), "pageid")
    {
      var args := new Hash<string>([]);
      GetMissing(PageIdEntries(pageid), "pageid");
      MergeGet([], PageIdEntries(pageid), "pageid");
      MergeKeepsKeysUnique([], PageIdEntries(pageid));
      var model := new BaseModel(pageid, args, identifierPath, extra, escapeTitle);
      assert "pageid" in model.responds by {
        assert "pageid" in Attributes;
      }
      RestrictGet(Merge([], PageIdEntries(pageid)), model.responds, "pageid");
      obj := if loaded then model else null;
    }
  }
}

module BaseModelProperties {
  import opened Wrappers
  import opened RubyHash
  import opened BaseModels

  /**
   * After `initialize`, a key survives exactly when the model responds to
   * it, and its value is the page id argument's when that supplies the key
   * and the caller's `args` value otherwise.
   */
  lemma PreparedArguments(args: seq<(string, string)>, pageid: PageIdArg, responds: set<string>, k: string)
    requires UniqueKeys(args) && UniqueKeys(PageIdEntries(pageid))
    ensures Get(Prepared(args, pageid, responds), k)
         == if k !in responds then None
            else if k in Keys(PageIdEntries(pageid)) then Get(PageIdEntries(pageid), k)
            else Get(args, k)
  {
    var merged := Merge(args, PageIdEntries(pageid));
    MergeGet(args, PageIdEntries(pageid), k);
    MergeKeepsKeysUnique(args, PageIdEntries(pageid));
    RestrictGet(merged, responds, k);
  }

  /** A scalar page id always wins over a `pageid` already in `args`. */
  lemma ScalarPageIdWins(args: seq<(string, string)>, id: string, extra: set<string>)
    requires UniqueKeys(args)
    ensures Get(Prepared(args, Scalar(id), Attributes + Methods + extra), "pageid") == Some(id)
  {
    assert Keys(PageIdEntries(Scalar(id))) == ["pageid"];
    PreparedArguments(args, Scalar(id), Attributes + Methods + extra, "pageid");
  }

  /** An unknown key passed in `args` is dropped; a declared attribute is kept. */
  lemma UnknownKeyIsDropped(args: seq<(string, string)>, id: string)
    requires UniqueKeys(args) && Get(args, "colour") == Some("red") && Get(args, "title") == Some("Paris")
    ensures Get(Prepared(args, Scalar(id), Attributes + Methods), "colour") == None
    ensures Get(Prepared(args, Scalar(id), Attributes + Methods), "title") == Some("Paris")
  {
    assert Keys(PageIdEntries(Scalar(id))) == ["pageid"];
    PreparedArguments(args, Scalar(id), Attributes + Methods, "colour");
    PreparedArguments(args, Scalar(id), Attributes + Methods, "title");
  }

  /** `doc_path` with a format is `doc_path` without one, a `.`, and the format. */
  lemma DocPathAddsFormat(identifierPath: string, pageid: string, format: string)
    ensures DocPathFor(identifierPath, pageid, Some(format))
         == DocPathFor(identifierPath, pageid, None) + "." + format
    ensures DocPathFor(identifierPath, pageid, Some("")) == DocPathFor(identifierPath, pageid, None) + "."
  {
  }

  /** The document URI, the resource URI and the document path share one template. */
  lemma UrisShareTemplate(identifierPath: string, pageid: string)
    ensures UriFor(identifierPath, pageid) == DocUriFor(identifierPath, pageid) + "#id"
    ensures DocUriFor(identifierPath, pageid) == Site + DocPathFor(identifierPath, pageid, None)
  {
  }

  /** Distinct page ids give distinct document paths, so the path identifies the page. */
  lemma DocPathIdentifiesPage(identifierPath: string, id1: string, id2: string)
    requires DocPathFor(identifierPath, id1, None) == DocPathFor(identifierPath, id2, None)
    ensures id1 == id2
  {
    var prefix := "/" + identifierPath + "/";
    assert DocPathFor(identifierPath, id1, None) == prefix + id1;
    assert DocPathFor(identifierPath, id2, None) == prefix + id2;
    assert id1 == (prefix + id1)[|prefix|..];
    assert id2 == (prefix + id2)[|prefix|..];
  }

  /** With the default identifier path, page 52780 lives at `/base/52780`. */
  lemma DefaultPaths()
    ensures DocPathFor(DefaultIdentifierPath, "52780", None) == "/base/52780"
    ensures UriFor(DefaultIdentifierPath, "52780") == "http://dbpedialite.org/base/52780#id"
    ensures DocPathFor(DefaultIdentifierPath, "52780", Some("rdf")) == "/base/52780.rdf"
  {
  }
}
