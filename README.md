# dbpedialite core, modelled in Dafny

dbpedialite is a small Sinatra web application. It publishes a linked-data
view of Wikipedia pages: every page gets a resource URI, a document URI and
a document path, and the application serves each document in one of several
RDF formats.

This project models the application's core logic:

- **Vocabulary extraction** (`DbpediaLite.extract_vocabularies`): for every
  predicate of a graph, the first registered vocabulary whose namespace URI
  is a prefix of the predicate is recorded in an insertion-ordered hash. Its
  key is the vocabulary's short name, which is the last `::` segment of its
  class name, lower-cased. See `vocabularies.dfy`.
- **Content negotiation** (`negotiate_content`): a lookup key is chosen from
  an explicit format token, or else from the first Accept entry with its
  parameters stripped. The key is looked up in a fixed table of five
  branches, and the response gets its cache headers, its content type and
  its body, or a 400 error. See `negotiation.dfy`.
- **The `/search` route**: URLs are added to the hits in place, and the
  format switch answers with HTML, a JSON list of labels, or a 400 error.
  See `negotiation.dfy`.
- **View helpers** (`link_to`, `nl2p`, `shorten`, `format_xmlns`,
  `truncate`). See `view_helpers.dfy`.
- **`BaseModel`**: the attribute filter that deletes unknown keys from the
  caller's argument hash in place; the memoised resource, Wikipedia and
  DBpedia URIs; the document URI and the document path. See
  `base_model.dfy`.

Supporting modules:

- `ruby_text.dfy` models the Ruby string operations the code relies on:
  `split('::')`, `split(/[\n\r]+/)`, `downcase` and `join`.
- `ruby_hash.dfy` models Ruby's insertion-ordered `Hash`:
  - `[]=` replaces a present key in place and appends a new key at the end;
  - `merge!`;
  - `delete`;
  - a `Hash` class whose methods change the entries in place.

The Ruby operations that change state keep that form here:

- `update` is a loop that deletes keys from a shared `Hash` object.
- The `@uri ||= ...` memos are fields of the `BaseModel` class.
- The `/search` loop changes an array of hits in place.
- The extraction and `format_xmlns` are loops proved against recursive
  specification functions.

## Model

| member | source | states |
|---|---|---|
| Vocabularies.ExtractVocabularies | dbpedialite.rb:11-25 | The two nested loops, with the early `break`, build exactly the hash `Extracted` describes: one `Put` per predicate, in graph order, of its first usable vocabulary. This is the corrected loop, which skips a nameless vocabulary. The code as written raises there; that version is `ExtractedAsWritten` (first Findings row). |
| Vocabularies.FirstMatchIsFirstUsable | dbpedialite.rb:14-21 | For one predicate, the inner loop picks the first vocabulary in registry order that matches and has a non-empty short name, together with that short name. It picks none exactly when no vocabulary qualifies. |
| VocabularyProperties.ExtractedEntriesAreValid | dbpedialite.rb:11-25 | Keys of the result are unique. Every entry maps a non-empty, lower-case short name to the registry vocabulary it was derived from, and that vocabulary's namespace prefixes some predicate. An empty graph gives an empty hash. |
| VocabularyProperties.ExtractedKeys | dbpedialite.rb:13-23 | A name is a key of the result if and only if some predicate's first usable vocabulary has that name. |
| VocabularyProperties.ExtractedValueFromLastPredicate | dbpedialite.rb:18 | When several predicates record the same name, the value is the vocabulary found for the last of them in graph order, because the hash assignment overwrites. |
| VocabularyProperties.ShortNameIsLowerCase | dbpedialite.rb:16 | The recorded name is lower-case. |
| VocabularyProperties.ShortNameOfQualifiedName | dbpedialite.rb:16 | The short name of `Outer::Inner` is `Inner` lower-cased. |
| VocabularyProperties.RdfsLabelIsRecordedAsRdfs | dbpedialite.rb:13-23 | Concrete case: `rdfs:label`, with a non-matching vocabulary registered first, is recorded as `rdfs`. |
| VocabularyProperties.ShortNameAsWrittenIsNeverEmpty | dbpedialite.rb:16-17 | As written, `split('::').last.downcase` is never `""`: it is a non-empty name, or it raises (nil). So the `empty?` guard never fires. |
| VocabularyProperties.ScanAsWrittenAgrees | dbpedialite.rb:14-21 | When every matching vocabulary is named, the inner loop as written finds the same vocabulary as the corrected one. |
| VocabularyProperties.ScanAsWrittenRaisesOnNamelessMatch | dbpedialite.rb:15-17 | A nameless vocabulary that matches first makes the inner loop as written raise, where the corrected loop skips it. |
| VocabularyProperties.ExtractedAsWrittenAgrees | dbpedialite.rb:11-25 | When no matching vocabulary is nameless, the extraction as written returns the corrected result. |
| VocabularyProperties.NamelessVocabularyRaises | dbpedialite.rb:16-17 | Concrete input on which the code as written raises and the corrected extraction records `org`. |
| RubyText.LastNonEmptyIsNonEmpty | dbpedialite.rb:16 | `split('::').last` is never empty: it is the last non-empty field, or nil when every field is empty. |
| RubyText.ColonFieldsOfPlainName | dbpedialite.rb:16 | A name without `:` splits into itself. |
| RubyText.DowncaseIsLowerCase | dbpedialite.rb:16 | `downcase` keeps the length and leaves no upper-case letter. |
| RubyHash.Put | dbpedialite.rb:18 | Hash assignment: the key now maps to the value and other keys keep their values. A present key keeps its position; a new key is appended. |
| RubyHash.PutKeepsKeysUnique | dbpedialite.rb:18 | Assignment keeps the keys unique. |
| RubyHash.MergeGet | lib/base_model.rb:19-23 | After `merge!`, a key maps to the other hash's value when the other hash has it, and keeps its own value otherwise. |
| RubyHash.RestrictGet | lib/base_model.rb:29-34 | After the keys outside the kept set are deleted, a kept key keeps its value and any other key is gone. |
| RubyHash.RestrictStep | lib/base_model.rb:30-34 | One iteration of the deleting loop extends the filtered prefix of the hash by one entry. |
| RubyHash.RestrictKeepsKeysUnique | lib/base_model.rb:29-34 | Deleting keys keeps the remaining keys unique, and every entry that remains was in the hash. |
| RubyHash.RestrictAppend | lib/base_model.rb:29-34 | Filtering works entry by entry: filtering `a + b` is filtering `a` followed by filtering `b`, so the kept entries stay in their original order. |
| RubyHash.DeleteKeepsKeysUnique | lib/base_model.rb:32 | `Hash#delete` keeps the keys unique and adds no entry. |
| Negotiation.Negotiate | dbpedialite.rb:27-54 | A served response carries one of the five content types. The response is a 400 with `Unsupported format: <key>\n` exactly when no branch lists the key. |
| Negotiation.NegotiateContent | dbpedialite.rb:27-54 | The response object gets `Vary: Accept` and `Cache-Control: public,max-age=600`, then the content type and body of the chosen branch, or the 400 status and message. |
| NegotiationProperties.StripParametersCutsAtFirstSemicolon | dbpedialite.rb:30 | On one line, `sub!(/;.+$/, '')` cuts at the first `;` that has a character after it, and otherwise leaves the key unchanged. |
| NegotiationProperties.StripParametersDropsParameters | dbpedialite.rb:30 | `type;params` becomes `type` whenever the parameters are non-empty. |
| NegotiationProperties.StripParametersKeepsBareSemicolon | dbpedialite.rb:30 | A bare trailing `;` is kept. |
| NegotiationProperties.ExplicitFormatIsUsedVerbatim | dbpedialite.rb:28-31 | A non-empty format is the key, and the Accept list does not affect the outcome. |
| NegotiationProperties.OnlyFirstAcceptEntryCounts | dbpedialite.rb:29-30 | Without a format, only the first Accept entry, with its parameters stripped, decides. |
| NegotiationProperties.BranchesAreDisjoint | dbpedialite.rb:36-50 | No key appears in two branches, and the five branches select five different formats. |
| NegotiationProperties.LookupFindsListingBranch | dbpedialite.rb:35-53 | The `case` finds a branch listing the key, and finds none exactly when no branch lists it. |
| NegotiationProperties.LookupIsMembership | dbpedialite.rb:35-53 | With disjoint branches, the chosen branch is the one that lists the key. |
| NegotiationProperties.NegotiateServesListingBranch | dbpedialite.rb:27-54 | A key listed by a branch is served with that branch's content type: the HTML view for the HTML branch, the graph dumped in the branch's format otherwise. |
| NegotiationProperties.ClassifyIgnoresBranchOrder | dbpedialite.rb:35-53 | The order of the `when` branches does not matter: any reordering gives the same outcome. |
| NegotiationProperties.HtmlIsTheDefault | dbpedialite.rb:28-38 | The HTML keys, including `""`, select `text/html` with the view. A request with no format and no Accept entry is served HTML. |
| NegotiationProperties.ClassifyOtherBranches | dbpedialite.rb:39-50 | Every alias of the JSON, N3, N-Triples and RDF/XML branches selects its format. |
| NegotiationProperties.UnknownFormatIsRejected | dbpedialite.rb:51-52 | An unknown key gives status 400 and the message that echoes it. |
| NegotiationProperties.WeightedAcceptListSelectsFirstEntry | dbpedialite.rb:29-41 | `application/json;q=0.9, text/html;q=0.1` is served as JSON. |
| Negotiation.SearchFormat | dbpedialite.rb:123-135 | `""` and `html` render the search view with no content type set. `json` answers `text/json` with the labels. Every other format gives 400. |
| Negotiation.Underscored | dbpedialite.rb:119 | `gsub(' ', '_')` keeps the length and replaces exactly the spaces. |
| Negotiation.AddTitleUrls | dbpedialite.rb:118-121 | Every hit, in place, gets `url` = `/titles/` + the escaped, underscored title. Its title is unchanged. |
| Negotiation.Labels | dbpedialite.rb:127-130 | One label per hit, in order, equal to its title. |
| Negotiation.Search | dbpedialite.rb:113-136 | A missing or empty term redirects to `/` and leaves the hits, the body and the content type alone. Otherwise the URLs are set and the format switch decides the response. The cache header is set in both cases. |
| ViewHelpers.LinkTo | dbpedialite.rb:61-66 | The caller's attribute hash gets `href` (the url, or the title when the url is nil), with other keys kept. The link lists the attributes in hash order around the escaped title. |
| ViewHelperProperties.ParagraphsSplitText | dbpedialite.rb:69 | `split(/[\n\r]+/)`: no paragraph holds a CR or LF, and the paragraphs together hold the text without its line breaks. Only the first paragraph may be empty. |
| ViewHelperProperties.LineFieldsAfterBreak | dbpedialite.rb:69 | A run of CR and LF after a break-free line ends that field: the split gives the line, then the split of what follows the run. |
| ViewHelperProperties.ParagraphsAfterBreak | dbpedialite.rb:69 | The same for the paragraph list, once trailing empty fields are dropped, when the first line is not empty. |
| ViewHelperProperties.Nl2PFirstParagraph | dbpedialite.rb:68-71 | A text made of a non-empty line, a run of line breaks and the rest gives `<p>` + line + `</p>` followed by the output for the rest. |
| ViewHelperProperties.Nl2PTwoLines | dbpedialite.rb:68-71 | `"ab\r\ncd"` becomes `<p>ab</p><p>cd</p>`. |
| ViewHelperProperties.LineFieldsHaveNoBreaks | dbpedialite.rb:69 | No field of the split holds a line break. |
| ViewHelperProperties.LineFieldsKeepText | dbpedialite.rb:69 | The split loses only the line breaks. |
| ViewHelperProperties.LineFieldsInnerNonEmpty | dbpedialite.rb:69 | A run of line breaks is one separator. |
| ViewHelperProperties.Nl2POneParagraph | dbpedialite.rb:68-71 | A text without line breaks becomes `<p>text</p>`. Nil and `""` become `""`. |
| ViewHelpers.Shorten | dbpedialite.rb:73-76 | The escaped `prefix:local` when a qualified name exists, else the escaped URI. |
| ViewHelpers.FormatXmlns | dbpedialite.rb:78-86 | Nil for nil. Otherwise the `+=` loop yields the declarations of every entry in hash order. |
| ViewHelperProperties.XmlnsDeclarationsAppend | dbpedialite.rb:81-83 | The declarations of two hashes in sequence are the concatenation of their declarations. |
| ViewHelperProperties.XmlnsOneFragmentPerEntry | dbpedialite.rb:81-83 | The result is exactly one ` xmlns:prefix="uri"` fragment per entry, in order. |
| ViewHelpers.Truncate | dbpedialite.rb:88-92 | Nil stays nil, and a text of at most `len` characters is returned unchanged. A longer text raises when the forward regex cannot be built or finds no match. |
| ViewHelpers.CutStart | dbpedialite.rb:91 | Where `\A.{l}` ends. For `l >= 0` it matches exactly when the text has at least `l` characters and `l` is at most the engine's repeat limit of 100000; above the limit, building the regex raises. For a negative `l`, the interval `{-n}` is not a valid repeat, so the regex reads it as literal text after one character. |
| ViewHelperProperties.TruncateWithLongSuffix | dbpedialite.rb:88-92 | With a suffix longer than `len`: a short text is kept, `"abcd"` raises, and `"a{-1}bc"` matches the literal `{-1}` and gets the suffix. |
| ViewHelperProperties.TruncateCutsAtWordBoundary | dbpedialite.rb:91 | For a count within the repeat limit, a longer text is cut back to its last `[\w;]` character within the forward cut, and the suffix is appended. The call raises exactly when the forward cut holds no such character. |
| ViewHelperProperties.TruncateKeepsWordWhole | dbpedialite.rb:91 | For a count within the repeat limit, when the character before the cut is a word character, the word running on is kept whole. |
| ViewHelperProperties.TruncateCompletesWord | dbpedialite.rb:91 | For a count within the repeat limit, a cut inside a word keeps the whole word and then appends the suffix. |
| ViewHelperProperties.TruncateMayExceedLength | dbpedialite.rb:88-92 | With the defaults, a 43-character sentence becomes 33 characters: the result may exceed `len`. |
| ViewHelperProperties.TruncateRaisesWithoutWordCharacters | dbpedialite.rb:91 | Concrete input on which the code as written raises. The corrected helper returns the forward cut plus the suffix. |
| ViewHelpers.TruncateCorrected | dbpedialite.rb:88-92 | Never raises. Long text becomes a prefix of the text followed by the suffix. A count above the repeat limit is used as it is. When the forward regex finds no match, the cut starts at the beginning of the text. |
| ViewHelperProperties.TruncateCorrectedAgrees | dbpedialite.rb:88-92 | For every `len`, the corrected helper differs from the code only on the inputs where the code raises. Within the repeat limit it then returns the forward cut, or the cut from the start, followed by the suffix. |
| ViewHelperProperties.TruncateRaisesAboveRepeatLimit | dbpedialite.rb:91 | A long text whose count exceeds the repeat limit makes the code raise, whatever the text. The corrected helper cuts after that many characters and then back to the last `[\w;]` character. |
| ViewHelperProperties.TruncateCorrectedWithLongSuffix | dbpedialite.rb:88-92 | With a suffix longer than `len`, the corrected helper keeps the literal `{-1}` match of `"a{-1}bc"` and turns `"abcd"` into `"abcd..."` instead of raising. |
| BaseModels.BaseModel.constructor | lib/base_model.rb:18-26 | The page id (scalar or hash) is merged into the caller's `args`, which `update` then filters in place. The attributes come from what remains; the memos start unset. |
| BaseModels.BaseModel.Update | lib/base_model.rb:29-36 | Every key the model does not respond to is deleted from `args` in place, in hash order. Declared attributes that remain are assigned; absent ones keep their values. |
| BaseModels.BaseModel.AssignAttributes | lib/base_model.rb:35 | `doodle.update` sets each declared attribute present in the filtered hash and leaves every absent one as it was. |
| BaseModelProperties.PreparedArguments | lib/base_model.rb:18-34 | After `initialize`, a key survives exactly when the model responds to it. Its value is the page id argument's when that has the key, else the caller's. |
| BaseModelProperties.ScalarPageIdWins | lib/base_model.rb:21-23 | A scalar page id overrides any `pageid` the caller put in `args`. |
| BaseModelProperties.UnknownKeyIsDropped | lib/base_model.rb:29-34 | An unknown key is dropped while a declared attribute is kept. |
| BaseModels.BaseModel.Uri | lib/base_model.rb:38-40 | The first call computes `http://dbpedialite.org/<identifier_path>/<pageid>#id`. Later calls return the memo. |
| BaseModels.BaseModel.SetDocUri | lib/base_model.rb:42-44 | The assigned URI is stored. |
| BaseModels.BaseModel.DocUri | lib/base_model.rb:46-48 | The assigned document URI if there is one; otherwise the resource URI without `#id`. |
| BaseModels.BaseModel.DocPath | lib/base_model.rb:50-52 | The site followed by the path is the default document URI, followed by `.format` when a format is given. |
| BaseModelProperties.DocPathAddsFormat | lib/base_model.rb:51 | A format adds `.` and the format, and `""` still adds the `.`. |
| BaseModelProperties.UrisShareTemplate | lib/base_model.rb:38-51 | resource URI = document URI + `#id`, and document URI = site + document path. |
| BaseModelProperties.DocPathIdentifiesPage | lib/base_model.rb:50-52 | Different page ids give different document paths. |
| BaseModelProperties.DefaultPaths | lib/base_model.rb:10-52 | With the default `identifier_path` `base`, page 52780 is at `/base/52780`, `/base/52780.rdf` and `http://dbpedialite.org/base/52780#id`. |
| BaseModels.BaseModel.EscapedTitle | lib/base_model.rb:54-58 | Nil exactly when the title is nil, else the escaped title. |
| BaseModels.BaseModel.WikipediaUri | lib/base_model.rb:60-62 | The first call computes the Wikipedia prefix + escaped title (nil interpolates as `""`). Later calls return the memo. |
| BaseModels.BaseModel.DbpediaUri | lib/base_model.rb:64-66 | The same as `WikipediaUri`, under `http://dbpedia.org/resource/`. |
| BaseModels.BaseModel.Load | lib/base_model.rb:12-15 | Returns a fresh model with the given page id exactly when its own `load` succeeds, and nil otherwise. |

## Left out

- The HTML escaping function (`h`/`escape_html`) is a parameter. So are `CGI::escape` and `WikipediaApi.escape_title`, which live in libraries that are not part of this model.
- `uri.qname` (RDF.rb) is a parameter of `Shorten`. `nil` stands for both a nil qname and an exception that `rescue` catches.
- Graph serialization (`graph.dump`) and view rendering (`erb`) appear only as tagged bodies.
- The Accept list is an input. Sinatra parses it from the request.
- In Ruby, `sub!` changes the first Accept string in place. The model computes the stripped key without modelling that mutation of the request object.
- The web search itself (`WikipediaApi.search`) is an input array of hits.
- `RDF::Vocabulary.each` is an ordered list of (namespace URI, class name) pairs, and the graph is its sequence of predicates.
- A vocabulary class without a name (`__name__` nil) is not modelled. Nil would raise in `split` before the code reaches the guard.
- `RDF::URI.parse` is the identity on strings. URI normalisation is not modelled.
- Doodle's attribute machinery is reduced to the three declared attributes. A key that the model responds to as a method (say `uri`) survives the filter. What Doodle then does with it is not modelled.
- Attribute values are strings. Ruby interpolates any value through `to_s`, and only interpolation is modelled here.
- The instance `load` that subclasses define (a network fetch) is the boolean `loaded` passed to `Load`.
- `format_iso8061`, the `before` host redirect, `/`, `/titles/...` and the other routes are outside the modelled core.
- `redirect` and `error` halt the route. The model stops at that point and does not model Sinatra's halt mechanism.
- ViewHelperProperties.TruncateCutsAtWordBoundary: stated for `len` at least the suffix length and a count within the repeat limit. For a shorter `len`, TruncateWithLongSuffix shows the behaviour on concrete inputs. Above the limit, TruncateRaisesAboveRepeatLimit states that the call raises.
- ViewHelpers.Truncate: counts characters, and `\w` is the ASCII word class. Character encodings are not modelled.
- BaseModels.BaseModel.constructor: requires a `pageid` to survive the filter. Without one, Doodle raises, and that error path is not modelled.
- BaseModels.BaseModel.Load: requires the page id argument to supply a `pageid`, as the constructor does. On an input without one, `self.new` raises, and that error path is not modelled.
- Hash keys, in every hash of the model, are modelled by their names. Ruby keeps a string key and a symbol key with the same name apart. For example, `link_to(t, u, :href => 'x')` keeps `:href` and adds `'href'`, giving two `href` attributes, where `ViewHelpers.LinkTo` has one.
- BaseModelProperties.ScalarPageIdWins: hash keys are modelled by their names, so a caller's string key `'pageid'` and the symbol `:pageid` that the constructor merges are one key. In Ruby they are two distinct keys, and the lemma holds only for symbol keys.

## Findings

| source | as written | input that shows it | evidently intended | confidence | as-written member | corrected member |
|---|---|---|---|---|---|---|
| dbpedialite.rb:16-17 | `vocab.__name__.split('::').last.downcase` is nil when the name has no non-empty segment, so `downcase` raises NoMethodError. The `unless vocab_name.empty?` guard can never be true, because Ruby's `split` drops trailing empty fields. | a registered vocabulary with name `""` whose namespace prefixes a predicate, e.g. `http://example.org/ns#` against predicate `http://example.org/ns#p` | such a vocabulary is skipped and the scan goes on to the next matching vocabulary (what the guard is written for) | medium, not executed | Vocabularies.ExtractedAsWritten / VocabularyProperties.NamelessVocabularyRaises | Vocabularies.ExtractVocabularies / VocabularyProperties.ExtractedEntriesAreValid |
| dbpedialite.rb:91 | `text[/\A.{l}\w*\;?/m][/.*[\w\;]/m]` is nil when the forward cut has no ASCII word character or `;`. Then `nil + truncate_string` raises NoMethodError. | `truncate("- - - - - - -", 10)` | a truncated string is returned and the helper never raises (the forward cut plus the suffix) | medium, not executed | ViewHelpers.Truncate / ViewHelperProperties.TruncateRaisesWithoutWordCharacters | ViewHelpers.TruncateCorrected / ViewHelperProperties.TruncateCorrectedAgrees |
| dbpedialite.rb:90-91 | With `len` shorter than the suffix, `l` is negative, and Ruby reads `.{-n}` as one character followed by the literal text `{-n}`. For almost every long text the forward regex is nil, and `nil[...]` raises NoMethodError. | `truncate("abcd", 2)` | a truncated string is returned and the helper never raises | medium, not executed | ViewHelpers.Truncate / ViewHelperProperties.TruncateWithLongSuffix | ViewHelpers.TruncateCorrected / ViewHelperProperties.TruncateCorrectedWithLongSuffix |
| dbpedialite.rb:91 | The count `l` is interpolated into a regex interval, and Ruby's regex engine refuses an interval count above 100000 with RegexpError. | `truncate("a" * 100005, 100004)`, where `l` is 100001 | the text is cut after `l` characters like any other long text | low, not executed | ViewHelpers.Truncate / ViewHelperProperties.TruncateRaisesAboveRepeatLimit | ViewHelpers.TruncateCorrected / ViewHelperProperties.TruncateRaisesAboveRepeatLimit |
