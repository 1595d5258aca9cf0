/**
 * The few pieces of Ruby's String behaviour the core relies on, over
 * `seq<char>`: prefix tests (`index(x) == 0`), ASCII `downcase` (the
 * behaviour of `String#downcase` before Ruby 2.4), `split` on the literal
 * separator `"::"` and on the regex `/[\n\r]+/`, and `join`.
 */
module RubyText {
  import opened Wrappers

  /** `s.index(p) == 0`: the first occurrence of `p` in `s` is at position 0. */
  predicate StartsWith(s: string, p: string) {
    |p| <= |s| && s[..|p|] == p
  }

  lemma StartsWithConcat(s: string, rest: string)
    ensures StartsWith(s + rest, s)
  {
    assert (s + rest)[..|s|] == s;
  }

  predicate IsUpper(c: char) {
    'A' <= c <= 'Z'
  }

  /** `\w` in a Ruby regex: `[a-zA-Z0-9_]`. */
  predicate IsWordChar(c: char) {
    ('a' <= c <= 'z') || ('A' <= c <= 'Z') || ('0' <= c <= '9') || c == '_'
  }

  function DowncaseChar(c: char): char {
    if IsUpper(c) then (c as int + 32) as char else c
  }

  /** ASCII `String#downcase`. */
  function Downcase(s: string): (r: string)
    ensures |r| == |s|
  {
    seq(|s|, i requires 0 <= i < |s| => DowncaseChar(s[i]))
  }

  predicate IsLowerCase(s: string) {
    forall i :: 0 <= i < |s| ==> !IsUpper(s[i])
  }

  lemma DowncaseIsLowerCase(s: string)
    ensures IsLowerCase(Downcase(s))
  {
    forall i | 0 <= i < |s| ensures !IsUpper(Downcase(s)[i]) {
      assert Downcase(s)[i] == DowncaseChar(s[i]);
    }
  }

  /**
   * The fields of `s.split('::')` before Ruby drops the trailing empty ones:
   * the separator is found left to right without overlap, so `":::"` gives
   * `["", ":"]`.
   */
  function ColonFields(s: string): (fields: seq<string>)
    ensures |fields| >= 1
    decreases |s|
  {
    if |s| == 0 then [""]
    else if |s| >= 2 && s[0] == ':' && s[1] == ':' then [""] + ColonFields(s[2..])
    else
      var rest := ColonFields(s[1..]);
      [[s[0]] + rest[0]] + rest[1..]
  }

  lemma {:induction false} ColonFieldsOfPlainName(s: string)
    requires forall i :: 0 <= i < |s| ==> s[i] != ':'
    ensures ColonFields(s) == [s]
  {
    if |s| > 0 {
      ColonFieldsOfPlainName(s[1..]);
      assert [s[0]] + s[1..] == s;
    }
  }

  lemma {:induction false} ColonFieldsAfterPlainField(a: string, b: string)
    requires forall i :: 0 <= i < |a| ==> a[i] != ':'
    ensures ColonFields(a + "::" + b) == [a] + ColonFields(b)
  {
    if |a| == 0 {
      assert a + "::" + b == "::" + b;
      assert ("::" + b)[2..] == b;
    } else {
      ColonFieldsAfterPlainField(a[1..], b);
      assert (a + "::" + b)[1..] == a[1..] + "::" + b;
      assert [a[0]] + a[1..] == a;
    }
  }

  /**
   * `fields.last` after Ruby's `split` has dropped the trailing empty fields:
   * the last non-empty field, or `nil` when every field is empty.
   */
  function LastNonEmpty(fields: seq<string>): Option<string>
  {
    if |fields| == 0 then None
    else if fields[|fields| - 1] != "" then Some(fields[|fields| - 1])
    else LastNonEmpty(fields[..|fields| - 1])
  }

  lemma {:induction false} LastNonEmptyIsNonEmpty(fields: seq<string>)
    ensures LastNonEmpty(fields).Some? ==> LastNonEmpty(fields).value != ""
    ensures LastNonEmpty(fields).None? <==> forall i :: 0 <= i < |fields| ==> fields[i] == ""
  {
    if |fields| > 0 && fields[|fields| - 1] == "" {
      var init := fields[..|fields| - 1];
      LastNonEmptyIsNonEmpty(init);
      assert forall i :: 0 <= i < |init| ==> init[i] == fields[i];
    }
  }

  predicate IsLineBreak(c: char) {
    c == '\n' || c == '\r'
  }

  /** `s` after its leading run of CR and LF characters. */
  function SkipLineBreaks(s: string): (r: string)
    ensures |r| <= |s| && r == s[|s| - |r|..]
    ensures |r| > 0 ==> !IsLineBreak(r[0])
  {
    if |s| > 0 && IsLineBreak(s[0]) then SkipLineBreaks(s[1..]) else s
  }

  /**
   * The fields of `s.split(/[\n\r]+/)` before Ruby drops the trailing empty
   * ones: every maximal run of CR/LF characters separates two fields, and a
   * run at the very start yields a leading empty field.
   */
  function LineFields(s: string): (fields: seq<string>)
    ensures |fields| >= 1
    decreases |s|
  {
    if |s| == 0 then [""]
    else if IsLineBreak(s[0]) then [""] + LineFields(SkipLineBreaks(s[1..]))
    else
      var rest := LineFields(s[1..]);
      [[s[0]] + rest[0]] + rest[1..]
  }

  /** Ruby's `split` without a limit drops the empty fields at the end. */
  function DropTrailingEmpty(fields: seq<string>): (r: seq<string>)
    ensures |r| <= |fields| && r == fields[..|r|]
    ensures |r| > 0 ==> r[|r| - 1] != ""
    ensures forall i :: |r| <= i < |fields| ==> fields[i] == ""
  {
    if |fields| > 0 && fields[|fields| - 1] == "" then DropTrailingEmpty(fields[..|fields| - 1])
    else fields
  }

  /** `s` with every CR and LF removed. */
  function WithoutLineBreaks(s: string): string {
    if |s| == 0 then ""
    else if IsLineBreak(s[0]) then WithoutLineBreaks(s[1..])
    else [s[0]] + WithoutLineBreaks(s[1..])
  }

  predicate HasNoLineBreak(s: string) {
    forall i :: 0 <= i < |s| ==> !IsLineBreak(s[i])
  }

  /** Concatenation of all the strings, in order (`join` with an empty separator). */
  function Concat(parts: seq<string>): string {
    if |parts| == 0 then "" else parts[0] + Concat(parts[1..])
  }

  lemma {:induction false} ConcatAppend(a: seq<string>, b: seq<string>)
    ensures Concat(a + b) == Concat(a) + Concat(b)
  {
    if |a| == 0 {
      assert a + b == b;
    } else {
      assert (a + b)[1..] == a[1..] + b;
      ConcatAppend(a[1..], b);
    }
  }

  /** `parts.join(sep)`. */
  function Join(parts: seq<string>, sep: string): string {
    if |parts| == 0 then ""
    else if |parts| == 1 then parts[0]
    else parts[0] + sep + Join(parts[1..], sep)
  }
}
