/**
 * `DbpediaLite.extract_vocabularies`: for every predicate of a graph, the
 * first vocabulary of the registry whose namespace URI is a prefix of the
 * predicate, recorded in an insertion-ordered hash under its short name
 * (the last `::` segment of the vocabulary's class name, lower-cased).
 *
 * The graph is given by its distinct predicates, in the order the graph
 * yields them; the registry (`RDF::Vocabulary.each`) by an ordered sequence.
 */
module Vocabularies {
  import opened Wrappers
  import opened RubyText
  import RubyHash

  /** A registry entry: its namespace URI (`vocab.to_uri.to_s`) and its class name (`vocab.__name__`). */
  datatype Vocabulary = Vocabulary(uri: string, name: string)

  /** `predicate.to_s.index(vocab.to_uri.to_s) == 0` */
  predicate Matches(pred: string, v: Vocabulary) {
    StartsWith(pred, v.uri)
  }

  /**
   * The short name the extraction records a vocabulary under:
   * `name.split('::').last.to_s.downcase`, so a name with no non-empty
   * field gives `""`. (The source omits `.to_s`; see `ShortNameAsWritten`.)
   */
  function ShortName(name: string): string {
    match LastNonEmpty(ColonFields(name))
    case None => ""
    case Some(field) => Downcase(field)
  }

  /** A vocabulary the scan records for `pred`: it matches and its short name is not empty. */
  predicate Usable(pred: string, v: Vocabulary) {
    Matches(pred, v) && ShortName(v.name) != ""
  }

  /** `registry[i]` is the first usable vocabulary for `pred`. */
  predicate IsFirstUsable(pred: string, registry: seq<Vocabulary>, i: nat)
    requires i < |registry|
  {
    Usable(pred, registry[i]) && forall j :: 0 <= j < i ==> !Usable(pred, registry[j])
  }

  /**
   * The inner loop for one predicate: the first usable vocabulary in
   * registry order, with its short name. Matching vocabularies with an empty
   * short name do not stop the scan.
   */
  function FirstMatch(pred: string, registry: seq<Vocabulary>): Option<(string, Vocabulary)>
  {
    if |registry| == 0 then None
    else if Usable(pred, registry[0]) then Some((ShortName(registry[0].name), registry[0]))
    else FirstMatch(pred, registry[1..])
  }

  /**
   * For each predicate only the first vocabulary, in registry order, that
   * matches and has a non-empty short name is recorded; none is recorded when
   * no vocabulary is usable.
   */
  lemma {:induction false} FirstMatchIsFirstUsable(pred: string, registry: seq<Vocabulary>)
    ensures FirstMatch(pred, registry).None? <==> forall i :: 0 <= i < |registry| ==> !Usable(pred, registry[i])
    ensures FirstMatch(pred, registry).Some? ==>
              exists i :: (0 <= i < |registry| && IsFirstUsable(pred, registry, i)
                           && FirstMatch(pred, registry).value == (ShortName(registry[i].name), registry[i]))
  {
    if |registry| > 0 && !Usable(pred, registry[0]) {
      var rest := registry[1..];
      FirstMatchIsFirstUsable(pred, rest);
      assert forall i :: 1 <= i < |registry| ==> registry[i] == rest[i - 1];
      if FirstMatch(pred, rest).Some? {
        var i :| 0 <= i < |rest| && IsFirstUsable(pred, rest, i)
                 && FirstMatch(pred, rest).value == (ShortName(rest[i].name), rest[i]);
        assert IsFirstUsable(pred, registry, i + 1);
      }
    } else if |registry| > 0 {
      assert IsFirstUsable(pred, registry, 0);
    }
  }

  /** The hash built after the outer loop has handled the given predicates, in order. */
  function Extracted(preds: seq<string>, registry: seq<Vocabulary>): seq<(string, Vocabulary)>
  {
    if |preds| == 0 then []
    else
      var vocabs := Extracted(preds[..|preds| - 1], registry);
      match FirstMatch(preds[|preds| - 1], registry)
      case None => vocabs
      case Some(m) => RubyHash.Put(vocabs, m.0, m.1)
  }

  /** `extract_vocabularies(graph)`: two nested loops, the inner one left by `break`. */
  method ExtractVocabularies(preds: seq<string>, registry: seq<Vocabulary>)
    returns (vocabs: seq<(string, Vocabulary)>)
    ensures vocabs == Extracted(preds, registry)
  {
    vocabs := [];
    var i := 0;
    while i < |preds|
      invariant 0 <= i <= |preds|
      invariant vocabs == Extracted(preds[..i], registry)
    {
      var pred := preds[i];
      assert preds[..i + 1][..i] == preds[..i];
      var j := 0;
      while j < |registry|
        invariant 0 <= j <= |registry|
        invariant vocabs == Extracted(preds[..i], registry)
        invariant FirstMatch(pred, registry) == FirstMatch(pred, registry[j..])
      {
        var vocab := registry[j];
        assert registry[j..][1..] == registry[j + 1..];
        if StartsWith(pred, vocab.uri) {
          var vocabName := ShortName(vocab.name);
          if vocabName != "" {
            vocabs := RubyHash.Put(vocabs, vocabName, vocab);
            break;
          }
        }
        j := j + 1;
      }
      i := i + 1;
    }
    assert preds[..i] == preds;
  }

  /** The outcome of the inner loop for one predicate, as the source writes it. */
  datatype Scan = NoMatch | Found(name: string, vocab: Vocabulary) | Raised

  /**
   * `name.split('::').last.downcase` exactly as written: `None` where
   * `.last` is nil (every field empty, e.g. the name `""`), on which
   * `downcase` raises NoMethodError.
   */
  function ShortNameAsWritten(name: string): Option<string> {
    match LastNonEmpty(ColonFields(name))
    case None => None
    case Some(field) => Some(Downcase(field))
  }

  /** The inner loop as written: a nameless matching vocabulary raises instead of being skipped. */
  function ScanAsWritten(pred: string, registry: seq<Vocabulary>): Scan {
    if |registry| == 0 then NoMatch
    else if Matches(pred, registry[0]) then
      match ShortNameAsWritten(registry[0].name)
      case None => Raised
      case Some(vocabName) =>
        if vocabName != "" then Found(vocabName, registry[0]) else ScanAsWritten(pred, registry[1..])
    else ScanAsWritten(pred, registry[1..])
  }

  /** `extract_vocabularies` as written; `None` when the call raises. */
  function ExtractedAsWritten(preds: seq<string>, registry: seq<Vocabulary>): Option<seq<(string, Vocabulary)>>
  {
    if |preds| == 0 then Some([])
    else
      match ExtractedAsWritten(preds[..|preds| - 1], registry)
      case None => None
      case Some(vocabs) =>
        match ScanAsWritten(preds[|preds| - 1], registry)
        case Raised => None
        case NoMatch => Some(vocabs)
        case Found(vocabName, vocab) => Some(RubyHash.Put(vocabs, vocabName, vocab))
  }
}

module VocabularyProperties {
  import opened Wrappers
  import opened RubyText
  import RubyHash
  import opened Vocabularies

  lemma ShortNameIsLowerCase(name: string)
    ensures IsLowerCase(ShortName(name))
  {
    match LastNonEmpty(ColonFields(name))
    case None =>
    case Some(field) => DowncaseIsLowerCase(field);
  }

  /** What every entry of the result satisfies. */
  predicate ValidEntry(entry: (string, Vocabulary), preds: seq<string>, registry: seq<Vocabulary>) {
    && entry.0 != ""
    && entry.0 == ShortName(entry.1.name)
    && IsLowerCase(entry.0)
    && entry.1 in registry
    && exists p :: p in preds && Matches(p, entry.1)
  }

  /**
   * Every key of the extracted hash is the non-empty, lower-cased short name
   * of a registry vocabulary whose namespace is a prefix of some predicate of
   * the graph; keys are unique; an empty graph gives an empty hash.
   */
  lemma {:induction false} ExtractedEntriesAreValid(preds: seq<string>, registry: seq<Vocabulary>)
    ensures RubyHash.UniqueKeys(Extracted(preds, registry))
    ensures forall entry :: entry in Extracted(preds, registry) ==> ValidEntry(entry, preds, registry)
    ensures preds == [] ==> Extracted(preds, registry) == []
  {
    if |preds| > 0 {
      var init, last := preds[..|preds| - 1], preds[|preds| - 1];
      ExtractedEntriesAreValid(init, registry);
      var vocabs := Extracted(init, registry);
      forall entry | entry in vocabs ensures ValidEntry(entry, preds, registry) {
        var p :| p in init && Matches(p, entry.1);
        assert p in preds;
      }
      match FirstMatch(last, registry)
      case None =>
      case Some(m) =>
        FirstMatchIsFirstUsable(last, registry);
        RubyHash.PutKeepsKeysUnique(vocabs, m.0, m.1);
        RubyHash.PutEntries(vocabs, m.0, m.1);
        ShortNameIsLowerCase(m.1.name);
        assert ValidEntry(m, preds, registry);
    }
  }

  /** Some predicate's first usable vocabulary has short name `name`. */
  predicate Contributes(pred: string, registry: seq<Vocabulary>, name: string) {
    FirstMatch(pred, registry).Some? && FirstMatch(pred, registry).value.0 == name
  }

  /**
   * A name is a key of the result exactly when some predicate of the graph
   * has a first usable vocabulary with that short name: predicates with no
   * usable vocabulary add nothing.
   */
  lemma {:induction false} ExtractedKeys(preds: seq<string>, registry: seq<Vocabulary>, name: string)
    ensures name in RubyHash.Keys(Extracted(preds, registry))
        <==> exists p :: p in preds && Contributes(p, registry, name)
  {
    if |preds| > 0 {
      var init, last := preds[..|preds| - 1], preds[|preds| - 1];
      ExtractedKeys(init, registry, name);
      var vocabs := Extracted(init, registry);
      assert preds == init + [last];
      if name in RubyHash.Keys(Extracted(preds, registry)) {
        if name !in RubyHash.Keys(vocabs) {
          assert Contributes(last, registry, name);
        } else {
          var p :| p in init && Contributes(p, registry, name);
          assert p in preds;
        }
      } else {
        forall p | p in preds ensures !Contributes(p, registry, name) {
          if p != last {
            assert p in init;
          }
        }
      }
    }
  }

  /**
   * The vocabulary recorded under a name comes from the last predicate, in
   * graph order, whose first usable vocabulary has that name.
   */
  lemma {:induction false} ExtractedValueFromLastPredicate(preds: seq<string>, registry: seq<Vocabulary>, k: nat)
    requires k < |preds| && FirstMatch(preds[k], registry).Some?
    requires forall j :: k < j < |preds| && FirstMatch(preds[j], registry).Some?
               ==> FirstMatch(preds[j], registry).value.0 != FirstMatch(preds[k], registry).value.0
    ensures RubyHash.Get(Extracted(preds, registry), FirstMatch(preds[k], registry).value.0)
         == Some(FirstMatch(preds[k], registry).value.1)
  {
    var init := preds[..|preds| - 1];
    if k < |preds| - 1 {
      assert forall j :: k < j < |init| ==> init[j] == preds[j];
      ExtractedValueFromLastPredicate(init, registry, k);
    }
  }

  /** The short name of `"A::B"` is `B` lower-cased. */
  lemma ShortNameOfQualifiedName(outer: string, inner: string)
    requires forall i :: 0 <= i < |outer| ==> outer[i] != ':'
    requires forall i :: 0 <= i < |inner| ==> inner[i] != ':'
    requires inner != ""
    ensures ShortName(outer + "::" + inner) == Downcase(inner)
  {
    ColonFieldsOfPlainName(inner);
    ColonFieldsAfterPlainField(outer, inner);
    assert LastNonEmpty([outer, inner]) == Some(inner);
  }

  /**
   * As written, the derived name is never empty: Ruby's `split` drops the
   * trailing empty fields, so `.last` is either a non-empty field or nil. The
   * guard `unless vocab_name.empty?` therefore never skips anything, and the
   * names it was meant to skip make `downcase` raise instead.
   */
  lemma ShortNameAsWrittenIsNeverEmpty(name: string)
    ensures ShortNameAsWritten(name) != Some("")
    ensures ShortNameAsWritten(name).None? <==> ShortName(name) == ""
    ensures ShortNameAsWritten(name).Some? ==> ShortNameAsWritten(name).value == ShortName(name)
  {
    LastNonEmptyIsNonEmpty(ColonFields(name));
  }

  /**
   * When no vocabulary that matches the predicate is nameless, the inner loop
   * as written finds what the corrected one finds.
   */
  lemma {:induction false} ScanAsWrittenAgrees(pred: string, registry: seq<Vocabulary>)
    requires forall i :: 0 <= i < |registry| && Matches(pred, registry[i]) ==> ShortName(registry[i].name) != ""
    ensures ScanAsWritten(pred, registry)
         == match FirstMatch(pred, registry)
            case None => NoMatch
            case Some(m) => Found(m.0, m.1)
  {
    if |registry| > 0 {
      ShortNameAsWrittenIsNeverEmpty(registry[0].name);
      var rest := registry[1..];
      assert forall i :: 0 <= i < |rest| ==> rest[i] == registry[i + 1];
      ScanAsWrittenAgrees(pred, rest);
    }
  }

  /**
   * The first vocabulary that matches decides: if it is nameless, the inner
   * loop as written raises, where the corrected one goes on scanning.
   */
  lemma ScanAsWrittenRaisesOnNamelessMatch(pred: string, v: Vocabulary, rest: seq<Vocabulary>)
    requires Matches(pred, v) && ShortName(v.name) == ""
    ensures ScanAsWritten(pred, [v] + rest) == Raised
    ensures FirstMatch(pred, [v] + rest) == FirstMatch(pred, rest)
  {
    ShortNameAsWrittenIsNeverEmpty(v.name);
    assert ([v] + rest)[1..] == rest;
  }

  /** Where every matching vocabulary is named, the extraction as written and the corrected one agree. */
  lemma {:induction false} ExtractedAsWrittenAgrees(preds: seq<string>, registry: seq<Vocabulary>)
    requires forall p, i :: p in preds && 0 <= i < |registry| && Matches(p, registry[i])
               ==> ShortName(registry[i].name) != ""
    ensures ExtractedAsWritten(preds, registry) == Some(Extracted(preds, registry))
  {
    if |preds| > 0 {
      var init, last := preds[..|preds| - 1], preds[|preds| - 1];
      assert forall p :: p in init ==> p in preds;
      ExtractedAsWrittenAgrees(init, registry);
      assert last in preds;
      assert forall i :: 0 <= i < |registry| && Matches(last, registry[i]) ==> ShortName(registry[i].name) != "";
      ScanAsWrittenAgrees(last, registry);
      match FirstMatch(last, registry)
      case None =>
        assert ScanAsWritten(last, registry) == NoMatch;
      case Some(m) =>
        assert ScanAsWritten(last, registry) == Found(m.0, m.1);
    }
  }

  /**
   * A registry entry whose name has no segment (here the empty name) makes
   * the extraction as written raise, while the corrected extraction skips it
   * and records the next matching vocabulary.
   */
  lemma NamelessVocabularyRaises()
    ensures ExtractedAsWritten(["http://example.org/ns#p"],
                               [Vocabulary("http://example.org/ns#", ""), Vocabulary("http://example.org/", "Example::Org")])
         == None
    ensures Extracted(["http://example.org/ns#p"],
                      [Vocabulary("http://example.org/ns#", ""), Vocabulary("http://example.org/", "Example::Org")])
         == [("org", Vocabulary("http://example.org/", "Example::Org"))]
  {
    var pred := "http://example.org/ns#p";
    var nameless := Vocabulary("http://example.org/ns#", "");
    var org := Vocabulary("http://example.org/", "Example::Org");
    assert Matches(pred, nameless) by {
      assert pred == nameless.uri + "p";
      StartsWithConcat(nameless.uri, "p");
    }
    assert Matches(pred, org) by {
      assert pred == org.uri + "ns#p";
      StartsWithConcat(org.uri, "ns#p");
    }
    OrgShortName();
    assert ShortName(nameless.name) == "" by {
      assert ColonFields("") == [""];
    }
    NamelessBeforeNamed(pred, nameless, org);
  }

  lemma NamelessBeforeNamed(pred: string, nameless: Vocabulary, named: Vocabulary)
    requires Matches(pred, nameless) && ShortName(nameless.name) == "" && Usable(pred, named)
    ensures ExtractedAsWritten([pred], [nameless, named]) == None
    ensures Extracted([pred], [nameless, named]) == [(ShortName(named.name), named)]
  {
    ScanAsWrittenRaisesOnNamelessMatch(pred, nameless, [named]);
    assert [nameless] + [named] == [nameless, named];
    assert [pred][..0] == [];
    SecondVocabularyRecorded(pred, nameless, named);
  }

  lemma OrgShortName()
    ensures ShortName("Example::Org") == "org"
  {
    ShortNameOfQualifiedName("Example", "Org");
    assert "Example" + "::" + "Org" == "Example::Org";
    assert Downcase("Org") == "org";
  }

  /** The example of an RDF Schema label: the first matching named vocabulary wins. */
  lemma RdfsLabelIsRecordedAsRdfs()
    ensures Extracted(["http://www.w3.org/2000/01/rdf-schema#label"],
                      [Vocabulary("http://purl.org/dc/terms/", "RDF::DC"),
                       Vocabulary("http://www.w3.org/2000/01/rdf-schema#", "RDF::RDFS")])
         == [("rdfs", Vocabulary("http://www.w3.org/2000/01/rdf-schema#", "RDF::RDFS"))]
  {
    var rdfs := Vocabulary("http://www.w3.org/2000/01/rdf-schema#", "RDF::RDFS");
    var dc := Vocabulary("http://purl.org/dc/terms/", "RDF::DC");
    var rdfsLabel := "http://www.w3.org/2000/01/rdf-schema#label";
    RdfsShortName();
    assert Matches(rdfsLabel, rdfs) by {
      assert rdfsLabel == rdfs.uri + "label";
      StartsWithConcat(rdfs.uri, "label");
    }
    assert !Usable(rdfsLabel, dc) by {
      assert rdfsLabel[7] == 'w' && dc.uri[7] == 'p';
    }
    SecondVocabularyRecorded(rdfsLabel, dc, rdfs);
  }

  lemma RdfsShortName()
    ensures ShortName("RDF::RDFS") == "rdfs"
  {
    ShortNameOfQualifiedName("RDF", "RDFS");
    assert "RDF" + "::" + "RDFS" == "RDF::RDFS";
    assert Downcase("RDFS") == "rdfs";
  }

  lemma SecondVocabularyRecorded(pred: string, first: Vocabulary, second: Vocabulary)
    requires !Usable(pred, first) && Usable(pred, second)
    ensures Extracted([pred], [first, second]) == [(ShortName(second.name), second)]
  {
    assert [first, second][1..] == [second];
    assert FirstMatch(pred, [first, second]) == Some((ShortName(second.name), second));
    assert [pred][..0] == [];
    assert Extracted([pred], [first, second]) == RubyHash.Put([], ShortName(second.name), second);
  }
}
