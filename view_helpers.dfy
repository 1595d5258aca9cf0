/**
 * The view helpers of `DbpediaLite`: `link_to`, `nl2p`, `shorten`,
 * `format_xmlns` and `truncate`. The HTML escaping function (`h`, that is
 * `escape_html`) is a parameter, and so is the qualified name that
 * `uri.qname` computes.
 */
module ViewHelpers {
  import opened Wrappers
  import opened RubyText
  import RubyHash
  import opened Vocabularies

  /** `"#{h k}=\"#{h v}\""` */
  function Attribute(entry: (string, string), h: string -> string): string {
    h(entry.0) + "=\"" + h(entry.1) + "\""
  }

  /** `attr.keys.map {...}.join(' ')` */
  function AttributeString(attrs: seq<(string, string)>, h: string -> string): string {
    Join(seq(|attrs|, i requires 0 <= i < |attrs| => Attribute(attrs[i], h)), " ")
  }

  /**
   * `link_to(title, url=nil, attr={})`: the caller's attribute hash gets
   * `href` (the url, or the title when no url is given) and the link lists
   * the attributes in the hash's order.
   */
  method LinkTo(title: string, url: Option<string>, attr: RubyHash.Hash<string>, h: string -> string)
    returns (html: string)
    requires attr.Valid()
    modifies attr
    ensures attr.Valid()
    ensures attr.entries == RubyHash.Put(old(attr.entries), "href", url.GetOr(title))
    ensures RubyHash.Get(attr.entries, "href") == Some(url.GetOr(title))
    ensures forall k :: k != "href" ==> RubyHash.Get(attr.entries, k) == RubyHash.Get(old(attr.entries), k)
    ensures html == "<a " + AttributeString(attr.entries, h) + ">" + h(title) + "</a>"
  {
    var target := url.GetOr(title);
    attr.MergeInPlace([("href", target)]);
    assert attr.entries == RubyHash.Put(old(attr.entries), "href", target);
    html := "<a " + AttributeString(attr.entries, h) + ">" + h(title) + "</a>";
  }

  /** `text.to_s.split(/[\n\r]+/)` */
  function Paragraphs(text: string): seq<string> {
    DropTrailingEmpty(LineFields(text))
  }

  /** `"<p>#{para}</p>"` for every paragraph */
  function Wrapped(paragraphs: seq<string>): seq<string> {
    seq(|paragraphs|, i requires 0 <= i < |paragraphs| => "<p>" + paragraphs[i] + "</p>")
  }

  /** `nl2p(text)`; `nil.to_s` is `""`. */
  function Nl2P(text: Option<string>): string {
    Concat(Wrapped(Paragraphs(text.GetOr(""))))
  }

  /**
   * `shorten(uri)`: the escaped qualified name `prefix:local` when `uri.qname`
   * yields one, and otherwise (nil, or an error that `rescue` catches) the
   * escaped full URI; it never raises.
   */
  function Shorten(uri: string, qname: Option<(string, string)>, escapeHtml: string -> string): (r: string)
    ensures qname.None? ==> r == escapeHtml(uri)
    ensures qname.Some? ==> r == escapeHtml(qname.value.0 + ":" + qname.value.1)
  {
    var shown := match qname
      case Some(q) => q.0 + ":" + q.1
      case None => uri;
    escapeHtml(shown)
  }

  /** ` xmlns:#{h prefix}="#{h vocab.to_uri}"` */
  function XmlnsAttribute(entry: (string, Vocabulary), h: string -> string): string {
    " xmlns:" + h(entry.0) + "=\"" + h(entry.1.uri) + "\""
  }

  /** The declarations for the entries handled so far, in hash order. */
  function XmlnsDeclarations(vocabs: seq<(string, Vocabulary)>, h: string -> string): string {
    if |vocabs| == 0 then ""
    else XmlnsDeclarations(vocabs[..|vocabs| - 1], h) + XmlnsAttribute(vocabs[|vocabs| - 1], h)
  }

  /** `format_xmlns(vocabularies)`: nil for nil, otherwise the declarations built with `+=` in `each_pair`. */
  method FormatXmlns(vocabularies: Option<seq<(string, Vocabulary)>>, h: string -> string)
    returns (xmlns: Option<string>)
    ensures xmlns.None? <==> vocabularies.None?
    ensures vocabularies.Some? ==> xmlns == Some(XmlnsDeclarations(vocabularies.value, h))
  {
    if vocabularies.None? {
      return None;
    }
    var vocabs := vocabularies.value;
    var acc := "";
    var i := 0;
    while i < |vocabs|
      invariant 0 <= i <= |vocabs|
      invariant acc == XmlnsDeclarations(vocabs[..i], h)
    {
      assert vocabs[..i + 1][..i] == vocabs[..i];
      acc := acc + XmlnsAttribute(vocabs[i], h);
      i := i + 1;
    }
    assert vocabs[..i] == vocabs;
    xmlns := Some(acc);
  }

  /** The result of `truncate`: nil, a string, or the NoMethodError raised when a regex finds nothing. */
  datatype Truncated = Nil | Text(text: string) | Raises

  /** The end of the run of word characters starting at `from`. */
  function WordRunEnd(s: string, from: nat): (k: nat)
    requires from <= |s|
    ensures from <= k <= |s|
    ensures forall j :: from <= j < k ==> IsWordChar(s[j])
    ensures k < |s| ==> !IsWordChar(s[k])
    decreases |s| - from
  {
    if from == |s| || !IsWordChar(s[from]) then from else WordRunEnd(s, from + 1)
  }

  /** Where `/\A.{l}\w*\;?/m` stops: after `l` characters, a run of word characters and an optional `;`. */
  function FirstCut(s: string, l: nat): (e: nat)
    requires l <= |s|
    ensures l <= e <= |s|
    ensures forall j :: l <= j < e - 1 ==> IsWordChar(s[j])
    ensures e > l ==> IsWordOrSemicolon(s[e - 1])
    ensures e < |s| && (e == l || s[e - 1] != ';') ==> !IsWordChar(s[e]) && s[e] != ';'
  {
    var w := WordRunEnd(s, l);
    if w < |s| && s[w] == ';' then w + 1 else w
  }

  predicate IsWordOrSemicolon(c: char) {
    IsWordChar(c) || c == ';'
  }

  /** The index of the last `[\w;]` character, where the greedy `/.*[\w\;]/m` stops. */
  function LastWordOrSemicolon(s: string): (r: Option<nat>)
    ensures r.Some? ==> r.value < |s| && IsWordOrSemicolon(s[r.value])
                        && forall j :: r.value < j < |s| ==> !IsWordOrSemicolon(s[j])
    ensures r.None? ==> forall j :: 0 <= j < |s| ==> !IsWordOrSemicolon(s[j])
  {
    if |s| == 0 then None
    else if IsWordOrSemicolon(s[|s| - 1]) then Some(|s| - 1)
    else LastWordOrSemicolon(s[..|s| - 1])
  }

  /** The decimal digits of `n`, as `#{n}` interpolates them. */
  function DecimalString(n: nat): (r: string)
    ensures |r| >= 1
    ensures forall i :: 0 <= i < |r| ==> '0' <= r[i] <= '9'
  {
    var digit := ['0' + (n % 10) as char];
    if n < 10 then digit else DecimalString(n / 10) + digit
  }

  /** The largest repeat count Ruby's regex engine accepts in an interval. */
  const MaxRepeat := 100000

  /**
   * Where `\A.{#{l}}` stops, if it matches. A count above `MaxRepeat` makes
   * building the regex raise. For a negative `l` the interval `{-n}` is not a
   * valid repetition, and Ruby reads it as literal text: the pattern is then
   * one character followed by the characters `{-n}`.
   */
  function CutStart(t: string, l: int): (k: Option<nat>)
    ensures k.Some? ==> k.value <= |t|
    ensures l >= 0 ==> (k.Some? <==> l <= |t| && l <= MaxRepeat) && (k.Some? ==> k.value == l)
  {
    if l >= 0 then
      if l <= |t| && l <= MaxRepeat then Some(l) else None
    else
      var literal := "{-" + DecimalString(-l) + "}";
      if 1 + |literal| <= |t| && t[1..1 + |literal|] == literal then Some(1 + |literal|) else None
  }

  /**
   * `truncate(text, len, truncate_string)`. The text is kept when it has at
   * most `len` characters; otherwise it is cut after `len - |suffix|`
   * characters and the word running on there, then back to its last word
   * character or `;`, and the suffix is appended. Either regex finding
   * nothing makes the call raise.
   */
  function Truncate(text: Option<string>, len: int, suffix: string): (r: Truncated)
    ensures text.None? <==> r == Nil
    ensures text.Some? && |text.value| <= len ==> r == Text(text.value)
    ensures text.Some? && |text.value| > len && CutStart(text.value, len - |suffix|).None? ==> r == Raises
  {
    match text
    case None => Nil
    case Some(t) =>
      if |t| <= len then Text(t)
      else
        match CutStart(t, len - |suffix|)
        case None => Raises
        case Some(start) =>
          var cut := t[..FirstCut(t, start)];
          match LastWordOrSemicolon(cut)
          case None => Raises
          case Some(k) => Text(cut[..k + 1] + suffix)
  }

  /**
   * Where the corrected helper starts its cut: after `l` characters whatever
   * the repeat limit, else where the forward regex stops, else at the start.
   */
  function CorrectedStart(t: string, l: int): (k: nat)
    ensures k <= |t|
    ensures 0 <= l <= |t| ==> k == l
  {
    if 0 <= l <= |t| then l else CutStart(t, l).GetOr(0)
  }

  /**
   * `truncate` as its callers rely on it: it never raises. A count of at
   * most the text's length is used whatever the regex engine's repeat limit.
   * Where the forward regex finds no match, the cut starts at the beginning
   * of the text; where
   * the backward search finds no word character or `;`, the forward cut
   * itself is kept.
   */
  function TruncateCorrected(text: Option<string>, len: int, suffix: string): (r: Truncated)
    ensures r != Raises
    ensures text.None? <==> r == Nil
    ensures text.Some? && |text.value| <= len ==> r == Text(text.value)
    ensures text.Some? && |text.value| > len ==>
              r.Text? && exists p :: 0 <= p <= |text.value| && r.text == text.value[..p] + suffix
  {
    match text
    case None => Nil
    case Some(t) =>
      if |t| <= len then Text(t)
      else
        var start := CorrectedStart(t, len - |suffix|);
        var cut := t[..FirstCut(t, start)];
        match LastWordOrSemicolon(cut)
        case None => Text(cut + suffix)
        case Some(k) =>
          assert cut[..k + 1] == t[..k + 1];
          Text(cut[..k + 1] + suffix)
  }
}

module ViewHelperProperties {
  import opened Wrappers
  import opened RubyText
  import opened Vocabularies
  import opened ViewHelpers

  lemma {:induction false} WithoutLineBreaksSkipsLeadingBreaks(s: string)
    ensures WithoutLineBreaks(SkipLineBreaks(s)) == WithoutLineBreaks(s)
  {
    if |s| > 0 && IsLineBreak(s[0]) {
      WithoutLineBreaksSkipsLeadingBreaks(s[1..]);
    }
  }

  /** No field of the split holds a CR or LF. */
  lemma {:induction false} LineFieldsHaveNoBreaks(s: string)
    ensures forall i :: 0 <= i < |LineFields(s)| ==> HasNoLineBreak(LineFields(s)[i])
    decreases |s|
  {
    if |s| == 0 {
    } else if IsLineBreak(s[0]) {
      var t := SkipLineBreaks(s[1..]);
      LineFieldsHaveNoBreaks(t);
      assert LineFields(s) == [""] + LineFields(t);
    } else {
      var rest := LineFields(s[1..]);
      LineFieldsHaveNoBreaks(s[1..]);
      var first := [s[0]] + rest[0];
      assert LineFields(s) == [first] + rest[1..];
      assert HasNoLineBreak(first) by {
        assert HasNoLineBreak(rest[0]);
        forall j | 0 <= j < |first| ensures !IsLineBreak(first[j]) {
          if j > 0 { assert first[j] == rest[0][j - 1]; }
        }
      }
    }
  }

  /** Together the fields of the split hold the text with its line breaks removed. */
  lemma {:induction false} LineFieldsKeepText(s: string)
    ensures Concat(LineFields(s)) == WithoutLineBreaks(s)
    decreases |s|
  {
    if |s| == 0 {
    } else if IsLineBreak(s[0]) {
      var t := SkipLineBreaks(s[1..]);
      LineFieldsKeepText(t);
      WithoutLineBreaksSkipsLeadingBreaks(s[1..]);
      var rest := LineFields(t);
      assert LineFields(s) == [""] + rest;
      assert Concat([""] + rest) == "" + Concat(rest);
    } else {
      var rest := LineFields(s[1..]);
      LineFieldsKeepText(s[1..]);
      var first := [s[0]] + rest[0];
      assert LineFields(s) == [first] + rest[1..];
      assert Concat(rest) == rest[0] + Concat(rest[1..]);
      assert Concat(LineFields(s)) == first + Concat(rest[1..]);
    }
  }

  /** Runs of line breaks are one separator: only the first and the last field may be empty. */
  lemma {:induction false} LineFieldsInnerNonEmpty(s: string)
    ensures forall i :: 0 < i < |LineFields(s)| - 1 ==> LineFields(s)[i] != ""
    decreases |s|
  {
    if |s| == 0 {
    } else if IsLineBreak(s[0]) {
      var t := SkipLineBreaks(s[1..]);
      LineFieldsInnerNonEmpty(t);
      var rest := LineFields(t);
      assert LineFields(s) == [""] + rest;
      if |t| > 0 {
        var tail := LineFields(t[1..]);
        assert rest[0] == [t[0]] + tail[0];
      }
    } else {
      var rest := LineFields(s[1..]);
      LineFieldsInnerNonEmpty(s[1..]);
      assert LineFields(s) == [[s[0]] + rest[0]] + rest[1..];
    }
  }

  /** Empty strings add nothing to a concatenation. */
  lemma {:induction false} ConcatOfEmpties(parts: seq<string>)
    requires forall i :: 0 <= i < |parts| ==> parts[i] == ""
    ensures Concat(parts) == ""
  {
    if |parts| > 0 {
      ConcatOfEmpties(parts[1..]);
    }
  }

  /**
   * `text.split(/[\n\r]+/)`: no paragraph holds a CR or LF, together they
   * hold the whole text apart from its line breaks, and only the first may be
   * empty (when the text starts with a line break).
   */
  lemma ParagraphsSplitText(text: string)
    ensures forall i :: 0 <= i < |Paragraphs(text)| ==> HasNoLineBreak(Paragraphs(text)[i])
    ensures Concat(Paragraphs(text)) == WithoutLineBreaks(text)
    ensures forall i :: 0 < i < |Paragraphs(text)| ==> Paragraphs(text)[i] != ""
  {
    var fields := LineFields(text);
    var ps := Paragraphs(text);
    assert forall i :: 0 <= i < |ps| ==> ps[i] == fields[i];
    assert forall i :: 0 <= i < |ps| ==> HasNoLineBreak(ps[i]) by {
      LineFieldsHaveNoBreaks(text);
    }
    assert Concat(ps) == WithoutLineBreaks(text) by {
      LineFieldsKeepText(text);
      assert fields == ps + fields[|ps|..];
      ConcatAppend(ps, fields[|ps|..]);
      ConcatOfEmpties(fields[|ps|..]);
    }
    assert forall i :: 0 < i < |ps| ==> ps[i] != "" by {
      LineFieldsInnerNonEmpty(text);
    }
  }

  lemma {:induction false} LineFieldsOfOneLine(s: string)
    requires HasNoLineBreak(s)
    ensures LineFields(s) == [s]
  {
    if |s| > 0 {
      LineFieldsOfOneLine(s[1..]);
      assert [s[0]] + s[1..] == s;
    }
  }

  /** Text without line breaks becomes one paragraph; nil and `""` become nothing. */
  lemma Nl2POneParagraph(s: string)
    requires HasNoLineBreak(s) && s != ""
    ensures Nl2P(Some(s)) == "<p>" + s + "</p>"
    ensures Nl2P(None) == "" && Nl2P(Some("")) == ""
  {
    LineFieldsOfOneLine(s);
    assert Paragraphs(s) == [s];
    assert Wrapped([s]) == ["<p>" + s + "</p>"];
    assert Concat(["<p>" + s + "</p>"]) == "<p>" + s + "</p>" + Concat([]);
    assert LineFields("") == [""];
    assert Paragraphs("") == [];
    assert Wrapped([]) == [];
  }

  /** A run of line breaks is skipped up to the first character that is not one. */
  lemma {:induction false} SkipBreakRun(brk: string, b: string)
    requires forall i :: 0 <= i < |brk| ==> IsLineBreak(brk[i])
    requires |b| > 0 ==> !IsLineBreak(b[0])
    ensures SkipLineBreaks(brk + b) == b
  {
    if |brk| > 0 {
      SkipBreakRun(brk[1..], b);
      assert (brk + b)[1..] == brk[1..] + b;
    } else {
      assert brk + b == b;
    }
  }

  /**
   * The split breaks exactly at a run of CR/LF: a line `a`, then a non-empty
   * run of line breaks, then the rest `b` gives `a` followed by the fields of `b`.
   */
  lemma {:induction false} LineFieldsAfterBreak(a: string, brk: string, b: string)
    requires HasNoLineBreak(a)
    requires |brk| > 0 && forall i :: 0 <= i < |brk| ==> IsLineBreak(brk[i])
    requires |b| > 0 ==> !IsLineBreak(b[0])
    ensures LineFields(a + brk + b) == [a] + LineFields(b)
    decreases |a|
  {
    var s := a + brk + b;
    if |a| == 0 {
      assert s == brk + b;
      assert s[1..] == brk[1..] + b;
      SkipBreakRun(brk[1..], b);
    } else {
      assert s[0] == a[0];
      assert s[1..] == a[1..] + brk + b;
      LineFieldsAfterBreak(a[1..], brk, b);
      assert [a[0]] + a[1..] == a;
    }
  }

  /** Dropping trailing empty fields never touches a non-empty field in front. */
  lemma {:induction false} DropTrailingEmptyAfterField(x: string, ys: seq<string>)
    requires x != ""
    ensures DropTrailingEmpty([x] + ys) == [x] + DropTrailingEmpty(ys)
    decreases |ys|
  {
    if |ys| > 0 && ys[|ys| - 1] == "" {
      var init := ys[..|ys| - 1];
      assert ([x] + ys)[..|[x] + ys| - 1] == [x] + init;
      DropTrailingEmptyAfterField(x, init);
    }
  }

  /** A non-empty line, a run of line breaks and the rest: the line is the first paragraph. */
  lemma ParagraphsAfterBreak(a: string, brk: string, b: string)
    requires HasNoLineBreak(a) && a != ""
    requires |brk| > 0 && forall i :: 0 <= i < |brk| ==> IsLineBreak(brk[i])
    requires |b| > 0 ==> !IsLineBreak(b[0])
    ensures Paragraphs(a + brk + b) == [a] + Paragraphs(b)
  {
    LineFieldsAfterBreak(a, brk, b);
    DropTrailingEmptyAfterField(a, LineFields(b));
  }

  /**
   * `nl2p` on several paragraphs: a non-empty first line, a run of line
   * breaks, and the rest gives the first line's paragraph followed by the
   * paragraphs of the rest.
   */
  lemma Nl2PFirstParagraph(a: string, brk: string, b: string)
    requires HasNoLineBreak(a) && a != ""
    requires |brk| > 0 && forall i :: 0 <= i < |brk| ==> IsLineBreak(brk[i])
    requires |b| > 0 ==> !IsLineBreak(b[0])
    ensures Nl2P(Some(a + brk + b)) == "<p>" + a + "</p>" + Nl2P(Some(b))
  {
    ParagraphsAfterBreak(a, brk, b);
    var ps := Paragraphs(b);
    var wrapped := Wrapped([a] + ps);
    assert wrapped == ["<p>" + a + "</p>"] + Wrapped(ps);
    assert Concat(wrapped) == wrapped[0] + Concat(wrapped[1..]);
  }

  /** Two lines separated by CRLF become two paragraphs. */
  lemma Nl2PTwoLines()
    ensures Nl2P(Some("ab" + "\r\n" + "cd")) == "<p>ab</p><p>cd</p>"
  {
    var a, brk, b := "ab", "\r\n", "cd";
    assert IsLineBreak(brk[0]) && IsLineBreak(brk[1]);
    assert !IsLineBreak(a[0]) && !IsLineBreak(a[1]);
    assert !IsLineBreak(b[0]) && !IsLineBreak(b[1]);
    Nl2PFirstParagraph(a, brk, b);
    Nl2POneParagraph(b);
  }

  /** Declarations of a concatenation are the concatenated declarations. */
  lemma {:induction false} XmlnsDeclarationsAppend(a: seq<(string, Vocabulary)>, b: seq<(string, Vocabulary)>, h: string -> string)
    ensures XmlnsDeclarations(a + b, h) == XmlnsDeclarations(a, h) + XmlnsDeclarations(b, h)
    decreases |b|
  {
    if |b| == 0 {
      assert a + b == a;
    } else {
      var init, last := b[..|b| - 1], b[|b| - 1];
      XmlnsDeclarationsAppend(a, init, h);
      assert (a + b)[..|a + b| - 1] == a + init;
      assert (a + b)[|a + b| - 1] == last;
      assert XmlnsDeclarations(a + b, h) == XmlnsDeclarations(a + init, h) + XmlnsAttribute(last, h);
      assert XmlnsDeclarations(b, h) == XmlnsDeclarations(init, h) + XmlnsAttribute(last, h);
    }
  }

  /** One ` xmlns:prefix="uri"` fragment per entry, in the order of the hash. */
  lemma {:induction false} XmlnsOneFragmentPerEntry(vocabs: seq<(string, Vocabulary)>, h: string -> string)
    ensures XmlnsDeclarations(vocabs, h)
         == Concat(seq(|vocabs|, i requires 0 <= i < |vocabs| => XmlnsAttribute(vocabs[i], h)))
  {
    if |vocabs| > 0 {
      var rest := vocabs[1..];
      XmlnsOneFragmentPerEntry(rest, h);
      assert vocabs == [vocabs[0]] + rest;
      XmlnsDeclarationsAppend([vocabs[0]], rest, h);
      assert [vocabs[0]][..0] == [];
      var fragments := seq(|vocabs|, i requires 0 <= i < |vocabs| => XmlnsAttribute(vocabs[i], h));
      assert fragments[1..] == seq(|rest|, i requires 0 <= i < |rest| => XmlnsAttribute(rest[i], h));
    }
  }

  /**
   * A long text whose characters before the cut contain a word character or
   * `;` is cut back to the last of them, and the suffix is appended; a text
   * with none raises.
   */
  lemma TruncateCutsAtWordBoundary(t: string, len: int, suffix: string)
    requires |suffix| <= len < |t| && len - |suffix| <= MaxRepeat
    ensures Truncate(Some(t), len, suffix) == Raises
        <==> forall j :: 0 <= j < FirstCut(t, len - |suffix|) ==> !IsWordOrSemicolon(t[j])
    ensures Truncate(Some(t), len, suffix).Text? ==>
              exists k :: (0 <= k < FirstCut(t, len - |suffix|) && IsWordOrSemicolon(t[k])
                           && (forall j :: k < j < FirstCut(t, len - |suffix|) ==> !IsWordOrSemicolon(t[j]))
                           && Truncate(Some(t), len, suffix).text == t[..k + 1] + suffix)
  {
    var e := FirstCut(t, len - |suffix|);
    var cut := t[..e];
    assert Truncate(Some(t), len, suffix)
        == match LastWordOrSemicolon(cut) case None => Raises case Some(k) => Text(cut[..k + 1] + suffix);
    assert forall j :: 0 <= j < e ==> cut[j] == t[j];
    match LastWordOrSemicolon(cut)
    case None =>
    case Some(k) =>
      assert cut[..k + 1] == t[..k + 1];
  }

  /**
   * When the character before the cut is a word character, the word running
   * on past it is kept whole (with one `;` after it, if any): the text is
   * never cut inside a word.
   */
  lemma TruncateKeepsWordWhole(t: string, len: int, suffix: string)
    requires |suffix| < len < |t| && IsWordChar(t[len - |suffix| - 1]) && len - |suffix| <= MaxRepeat
    ensures Truncate(Some(t), len, suffix) == Text(t[..FirstCut(t, len - |suffix|)] + suffix)
  {
    var l := len - |suffix|;
    var e := FirstCut(t, l);
    var cut := t[..e];
    assert IsWordOrSemicolon(cut[|cut| - 1]);
    assert LastWordOrSemicolon(cut) == Some(|cut| - 1);
    assert cut[..|cut|] == cut;
  }

  /**
   * A text cut right after a word character keeps the rest of that word:
   * `prefix` fills the first `len - |suffix|` characters and ends inside a
   * word that `word` completes.
   */
  lemma TruncateCompletesWord(prefix: string, word: string, rest: string, len: int, suffix: string)
    requires |prefix| == len - |suffix| > 0 && IsWordChar(prefix[|prefix| - 1]) && |prefix| <= MaxRepeat
    requires forall j :: 0 <= j < |word| ==> IsWordChar(word[j])
    requires |rest| > 0 && !IsWordOrSemicolon(rest[0]) && |prefix + word + rest| > len
    ensures Truncate(Some(prefix + word + rest), len, suffix) == Text(prefix + word + suffix)
  {
    var t := prefix + word + rest;
    var l := |prefix|;
    var e := |prefix| + |word|;
    assert t[l - 1] == prefix[l - 1];
    assert forall j :: l <= j < e ==> t[j] == word[j - l];
    assert t[e] == rest[0];
    var w := WordRunEnd(t, l);
    assert w == e;
    assert FirstCut(t, l) == e;
    TruncateKeepsWordWhole(t, len, suffix);
    assert t[..e] == prefix + word;
  }

  /** With the defaults (30 characters, `...`) the last word is completed, so the result may exceed 30 characters. */
  lemma TruncateMayExceedLength()
    ensures Truncate(Some("The quick brown fox jumps o" + "ver" + " the lazy dog"), 30, "...")
         == Text("The quick brown fox jumps o" + "ver" + "...")
  {
    var prefix, word, rest := "The quick brown fox jumps o", "ver", " the lazy dog";
    assert |prefix| == 27 && prefix[26] == 'o';
    assert word[0] == 'v' && word[1] == 'e' && word[2] == 'r';
    assert rest[0] == ' ';
    TruncateCompletesWord(prefix, word, rest, 30, "...");
  }

  /** A long text with no word character or `;` before the cut makes `truncate` raise. */
  lemma TruncateRaisesWithoutWordCharacters()
    ensures Truncate(Some("- - - - - - -"), 10, "...") == Raises
    ensures TruncateCorrected(Some("- - - - - - -"), 10, "...") == Text("- - - -...")
  {
    var t := "- - - - - - -";
    assert !IsWordChar(t[7]) && t[7] != ';';
    assert FirstCut(t, 7) == 7;
    var cut := t[..7];
    assert forall j :: 0 <= j < 7 ==> !IsWordOrSemicolon(cut[j]);
    assert cut + "..." == "- - - -...";
  }

  /**
   * A count above the repeat limit makes the code raise however the text
   * reads, while the corrected helper cuts after that many characters.
   */
  lemma TruncateRaisesAboveRepeatLimit(t: string, len: int, suffix: string)
    requires len < |t| && len - |suffix| > MaxRepeat
    ensures Truncate(Some(t), len, suffix) == Raises
    ensures TruncateCorrected(Some(t), len, suffix)
         == var cut := t[..FirstCut(t, len - |suffix|)];
            match LastWordOrSemicolon(cut)
            case None => Text(cut + suffix)
            case Some(k) => Text(cut[..k + 1] + suffix)
  {
  }

  /**
   * The corrected `truncate` differs from the code only where the code
   * raises. Below the repeat limit it then keeps the whole forward cut;
   * above it, `TruncateRaisesAboveRepeatLimit` says what it returns.
   */
  lemma TruncateCorrectedAgrees(text: Option<string>, len: int, suffix: string)
    ensures Truncate(text, len, suffix) != Raises ==>
              TruncateCorrected(text, len, suffix) == Truncate(text, len, suffix)
    ensures Truncate(text, len, suffix) == Raises && len - |suffix| <= MaxRepeat ==>
              var start := CorrectedStart(text.value, len - |suffix|);
              TruncateCorrected(text, len, suffix) == Text(text.value[..FirstCut(text.value, start)] + suffix)
  {
  }

  /**
   * A suffix longer than `len`: a short text is returned as it is, and a
   * long one makes the forward regex look for the literal text `{-1}`.
   */
  lemma TruncateWithLongSuffix()
    ensures Truncate(Some("ab"), 2, "...") == Text("ab")
    ensures Truncate(Some("abcd"), 2, "...") == Raises
    ensures Truncate(Some("a{-1}bc"), 2, "...") == Text("a{-1}bc...")
  {
    assert DecimalString(1) == "1";
    var t := "a{-1}bc";
    assert t[1..5] == "{-1}";
    assert CutStart(t, -1) == Some(5);
    assert WordRunEnd(t, 7) == 7;
    assert WordRunEnd(t, 6) == 7;
    assert WordRunEnd(t, 5) == 7;
    assert FirstCut(t, 5) == 7;
    assert t[..7] == t;
    assert IsWordOrSemicolon(t[6]);
    assert LastWordOrSemicolon(t) == Some(6);
    assert t[..7] + "..." == "a{-1}bc...";
  }

  /** The corrected helper on the same inputs: the literal match is kept, and `"abcd"` no longer raises. */
  lemma TruncateCorrectedWithLongSuffix()
    ensures TruncateCorrected(Some("a{-1}bc"), 2, "...") == Text("a{-1}bc...")
    ensures TruncateCorrected(Some("abcd"), 2, "...") == Text("abcd...")
  {
    TruncateWithLongSuffix();
    TruncateCorrectedAgrees(Some("a{-1}bc"), 2, "...");
    var t := "abcd";
    assert CutStart(t, -1).None?;
    assert WordRunEnd(t, 4) == 4;
    assert WordRunEnd(t, 3) == 4;
    assert WordRunEnd(t, 2) == 4;
    assert WordRunEnd(t, 1) == 4;
    assert WordRunEnd(t, 0) == 4;
    assert FirstCut(t, 0) == 4;
    assert t[..4] == t;
    assert IsWordOrSemicolon(t[3]);
    assert LastWordOrSemicolon(t) == Some(3);
  }
}
