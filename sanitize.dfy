/**
 * `sanitize_split` of cold_email.py: delete every whitespace character of a
 * spreadsheet cell, then cut what is left at each comma. The three Python
 * operations it is built from are modelled one by one: `str.split()` (Words),
 * `''.join` (Concat) and `str.split(',')` (Split), with `','.join` (Join) as
 * the inverse of the last.
 */
module Sanitize {

  /** The characters Python's `str.split()` and `str.isspace()` treat as whitespace, by code point. */
  predicate IsWhitespace(c: char) {
    || '\t' <= c <= '\r' || '\U{1C}' <= c <= ' ' || c == '\U{85}' || c == '\U{A0}' || c == '\U{1680}'
    || '\U{2000}' <= c <= '\U{200A}' || c == '\U{2028}' || c == '\U{2029}' || c == '\U{202F}' || c == '\U{205F}'
    || c == '\U{3000}'
  }

  lemma CommaIsNotWhitespace()
    ensures !IsWhitespace(',')
  {
  }

  /** No visible ASCII character is whitespace. */
  lemma VisibleIsNotWhitespace(s: string)
    requires forall i :: 0 <= i < |s| ==> '!' <= s[i] <= '~'
    ensures NoWhitespace(s)
  {
  }

  predicate NoWhitespace(s: string) {
    forall i :: 0 <= i < |s| ==> !IsWhitespace(s[i])
  }

  predicate AllWhitespace(s: string) {
    forall i :: 0 <= i < |s| ==> IsWhitespace(s[i])
  }

  /** `s` holds a character that is not whitespace, i.e. `s.split()` is not empty. */
  predicate HasWord(s: string) {
    exists i :: 0 <= i < |s| && !IsWhitespace(s[i])
  }

  /** Reference definition: `s` with every whitespace character deleted. */
  function RemoveWhitespace(s: string): (r: string)
    ensures NoWhitespace(r)
  {
    if s == [] then []
    else if IsWhitespace(s[0]) then RemoveWhitespace(s[1..])
    else [s[0]] + RemoveWhitespace(s[1..])
  }

  lemma {:induction false} RemoveWhitespaceAppend(a: string, b: string)
    ensures RemoveWhitespace(a + b) == RemoveWhitespace(a) + RemoveWhitespace(b)
  {
    if a == [] {
      assert a + b == b;
    } else {
      assert (a + b)[1..] == a[1..] + b;
      RemoveWhitespaceAppend(a[1..], b);
    }
  }

  lemma {:induction false} RemoveWhitespaceOfBlank(s: string)
    requires AllWhitespace(s)
    ensures RemoveWhitespace(s) == []
  {
    if s != [] {
      RemoveWhitespaceOfBlank(s[1..]);
    }
  }

  lemma {:induction false} RemoveWhitespaceOfWord(s: string)
    requires NoWhitespace(s)
    ensures RemoveWhitespace(s) == s
  {
    if s != [] {
      RemoveWhitespaceOfWord(s[1..]);
    }
  }

  /** The index of the first character at or after `i` that is not whitespace, or `|s|`. */
  function SkipSpace(s: string, i: nat): (j: nat)
    requires i <= |s|
    ensures i <= j <= |s|
    ensures forall k :: i <= k < j ==> IsWhitespace(s[k])
    ensures j == |s| || !IsWhitespace(s[j])
    decreases |s| - i
  {
    if i < |s| && IsWhitespace(s[i]) then SkipSpace(s, i + 1) else i
  }

  /** The index of the first whitespace character at or after `i`, or `|s|`. */
  function SkipWord(s: string, i: nat): (j: nat)
    requires i <= |s|
    ensures i <= j <= |s|
    ensures forall k :: i <= k < j ==> !IsWhitespace(s[k])
    ensures j == |s| || IsWhitespace(s[j])
    decreases |s| - i
  {
    if i < |s| && !IsWhitespace(s[i]) then SkipWord(s, i + 1) else i
  }

  /** The words of `s` from index `i` on. */
  function WordsFrom(s: string, i: nat): (r: seq<string>)
    requires i <= |s|
    ensures forall k :: 0 <= k < |r| ==> r[k] != [] && NoWhitespace(r[k])
    decreases |s| - i
  {
    var j := SkipSpace(s, i);
    if j == |s| then []
    else
      var e := SkipWord(s, j);
      [s[j..e]] + WordsFrom(s, e)
  }

  /** Python's `s.split()`: the maximal runs of `s` without whitespace, in order. */
  function Words(s: string): (r: seq<string>)
    ensures forall k :: 0 <= k < |r| ==> r[k] != [] && NoWhitespace(r[k])
  {
    WordsFrom(s, 0)
  }

  /** `s.split()` is empty exactly when `s` is all whitespace. */
  lemma WordsEmpty(s: string)
    ensures Words(s) != [] <==> HasWord(s)
  {
    var j := SkipSpace(s, 0);
    if j < |s| {
      assert !IsWhitespace(s[j]);
    }
  }

  /** Python's `''.join(parts)`. */
  function Concat(parts: seq<string>): string {
    if parts == [] then [] else parts[0] + Concat(parts[1..])
  }

  lemma RemoveWhitespaceSkipsSpace(s: string, i: nat)
    requires i <= |s|
    ensures RemoveWhitespace(s[i..]) == RemoveWhitespace(s[SkipSpace(s, i)..])
  {
    var j := SkipSpace(s, i);
    assert AllWhitespace(s[i..j]);
    RemoveWhitespaceOfBlank(s[i..j]);
    assert s[i..] == s[i..j] + s[j..];
    RemoveWhitespaceAppend(s[i..j], s[j..]);
  }

  lemma RemoveWhitespaceKeepsWord(s: string, j: nat)
    requires j <= |s|
    ensures RemoveWhitespace(s[j..]) == s[j..SkipWord(s, j)] + RemoveWhitespace(s[SkipWord(s, j)..])
  {
    var e := SkipWord(s, j);
    assert NoWhitespace(s[j..e]);
    RemoveWhitespaceOfWord(s[j..e]);
    assert s[j..] == s[j..e] + s[e..];
    RemoveWhitespaceAppend(s[j..e], s[e..]);
  }

  lemma {:induction false} WordsFromConcat(s: string, i: nat)
    requires i <= |s|
    ensures Concat(WordsFrom(s, i)) == RemoveWhitespace(s[i..])
    decreases |s| - i
  {
    var j := SkipSpace(s, i);
    RemoveWhitespaceSkipsSpace(s, i);
    if j == |s| {
      assert s[j..] == [];
    } else {
      var e := SkipWord(s, j);
      RemoveWhitespaceKeepsWord(s, j);
      WordsFromConcat(s, e);
      var r := WordsFrom(s, i);
      assert r == [s[j..e]] + WordsFrom(s, e);
      assert r[1..] == WordsFrom(s, e);
    }
  }

  /** Joining the words of `s` without a separator deletes exactly the whitespace of `s`. */
  lemma WordsConcat(s: string)
    ensures Concat(Words(s)) == RemoveWhitespace(s)
  {
    WordsFromConcat(s, 0);
    assert s[0..] == s;
  }

  /**
   * `w` is the first word of `s` and starts at index `i`: only whitespace
   * comes before it, and whitespace or the end of `s` right after it.
   */
  ghost predicate FirstWordAt(s: string, w: string, i: nat) {
    && w != [] && NoWhitespace(w)
    && i + |w| <= |s| && s[i..i + |w|] == w
    && (forall k :: 0 <= k < i ==> IsWhitespace(s[k]))
    && (i + |w| == |s| || IsWhitespace(s[i + |w|]))
  }

  /** When `s` has a word, `s.split()[0]` is the first word of `s`. */
  lemma WordsStartWithFirstWord(s: string)
    requires HasWord(s)
    ensures Words(s) != [] && exists i :: FirstWordAt(s, Words(s)[0], i)
  {
    WordsEmpty(s);
    var j := SkipSpace(s, 0);
    var e := SkipWord(s, j);
    assert Words(s)[0] == s[j..e];
    assert FirstWordAt(s, s[j..e], j);
  }

  /** The first word of `s` is unique: whatever is the first word of `s` is `s.split()[0]`. */
  lemma FirstWordUnique(s: string, w: string, i: nat)
    requires FirstWordAt(s, w, i)
    ensures Words(s) != [] && Words(s)[0] == w
  {
    var j := SkipSpace(s, 0);
    assert !IsWhitespace(s[i]) by {
      assert s[i] == s[i..i + |w|][0] == w[0];
    }
    assert i <= j ==> j == i;
    assert j == i;
    var e := SkipWord(s, j);
    assert forall k :: i <= k < i + |w| ==> !IsWhitespace(s[k]) by {
      forall k | i <= k < i + |w|
        ensures !IsWhitespace(s[k])
      {
        assert s[k] == s[i..i + |w|][k - i] == w[k - i];
      }
    }
    assert e <= i + |w| ==> e == i + |w|;
    assert i + |w| <= e ==> e == i + |w|;
    assert Words(s) == [s[j..e]] + WordsFrom(s, e);
  }

  /** Python's `s.split(sep)`: the pieces of `s` between the occurrences of `sep`. */
  function Split(s: string, sep: char): (r: seq<string>)
    ensures |r| >= 1
    ensures forall k :: 0 <= k < |r| ==> sep !in r[k]
  {
    if s == [] then [[]]
    else
      var rest := Split(s[1..], sep);
      if s[0] == sep then [[]] + rest else [[s[0]] + rest[0]] + rest[1..]
  }

  /** Python's `sep.join(parts)`. */
  function Join(parts: seq<string>, sep: char): string {
    if parts == [] then []
    else if |parts| == 1 then parts[0]
    else parts[0] + [sep] + Join(parts[1..], sep)
  }

  /** Splitting at `sep` and joining with `sep` gives `s` back. */
  lemma {:induction false} SplitThenJoin(s: string, sep: char)
    ensures Join(Split(s, sep), sep) == s
  {
    if s != [] {
      var rest := Split(s[1..], sep);
      SplitThenJoin(s[1..], sep);
      assert s == [s[0]] + s[1..];
      if s[0] == sep {
        assert ([[]] + rest)[1..] == rest;
      } else if |rest| > 1 {
        assert ([[s[0]] + rest[0]] + rest[1..])[1..] == rest[1..];
      }
    }
  }

  /** A separator-free prefix `t` becomes the start of the first piece. */
  lemma {:induction false} SplitAfterRun(t: string, x: string, sep: char)
    requires sep !in t
    ensures Split(t + x, sep) == [t + Split(x, sep)[0]] + Split(x, sep)[1..]
  {
    if t == [] {
      var px := Split(x, sep);
      assert t + x == x && t + px[0] == px[0];
      assert px == [px[0]] + px[1..];
    } else {
      var tx := t + x;
      assert tx[0] == t[0] != sep;
      assert tx[1..] == t[1..] + x;
      SplitAfterRun(t[1..], x, sep);
      var r := Split(tx[1..], sep);
      var px := Split(x, sep);
      assert r[0] == t[1..] + px[0] && r[1..] == px[1..];
      assert [t[0]] + r[0] == t + px[0];
    }
  }

  /** Joining separator-free pieces with `sep` and splitting at `sep` gives the pieces back. */
  lemma {:induction false} JoinThenSplit(parts: seq<string>, sep: char)
    requires |parts| >= 1
    requires forall k :: 0 <= k < |parts| ==> sep !in parts[k]
    ensures Split(Join(parts, sep), sep) == parts
  {
    if |parts| == 1 {
      SplitAfterRun(parts[0], [], sep);
      assert parts[0] + [] == parts[0];
    } else {
      var rest := Join(parts[1..], sep);
      JoinThenSplit(parts[1..], sep);
      assert Join(parts, sep) == parts[0] + ([sep] + rest);
      SplitAfterRun(parts[0], [sep] + rest, sep);
      assert ([sep] + rest)[1..] == rest;
      assert Split([sep] + rest, sep) == [[]] + parts[1..];
      assert parts[0] + [] == parts[0];
      assert parts == [parts[0]] + parts[1..];
    }
  }

  lemma {:induction false} SplitKeepsNoWhitespace(s: string, sep: char)
    requires NoWhitespace(s)
    ensures forall k :: 0 <= k < |Split(s, sep)| ==> NoWhitespace(Split(s, sep)[k])
  {
    if s != [] {
      SplitKeepsNoWhitespace(s[1..], sep);
    }
  }

  lemma {:induction false} JoinKeepsNoWhitespace(parts: seq<string>, sep: char)
    requires !IsWhitespace(sep)
    requires forall k :: 0 <= k < |parts| ==> NoWhitespace(parts[k])
    ensures NoWhitespace(Join(parts, sep))
  {
    if |parts| > 1 {
      JoinKeepsNoWhitespace(parts[1..], sep);
    }
  }

  /**
   * `sanitize_split(field)`, that is `''.join(field.split()).split(',')`: at
   * least one token, none holding whitespace or a comma, and joined with
   * commas they give `field` with its whitespace deleted.
   */
  function SanitizeSplit(field: string): (r: seq<string>)
    ensures |r| >= 1
    ensures forall k :: 0 <= k < |r| ==> NoWhitespace(r[k]) && ',' !in r[k]
    ensures Join(r, ',') == RemoveWhitespace(field)
  {
    var compact := Concat(Words(field));
    WordsConcat(field);
    SplitThenJoin(compact, ',');
    SplitKeepsNoWhitespace(compact, ',');
    Split(compact, ',')
  }

  /** The other half of the round trip: tokens joined with commas split back into the same tokens. */
  lemma SanitizeSplitOfJoin(tokens: seq<string>)
    requires |tokens| >= 1
    requires forall k :: 0 <= k < |tokens| ==> NoWhitespace(tokens[k]) && ',' !in tokens[k]
    ensures SanitizeSplit(Join(tokens, ',')) == tokens
  {
    var s := Join(tokens, ',');
    assert Concat(Words(s)) == s by {
      CommaIsNotWhitespace();
      JoinKeepsNoWhitespace(tokens, ',');
      WordsConcat(s);
      RemoveWhitespaceOfWord(s);
    }
    assert Split(s, ',') == tokens by {
      JoinThenSplit(tokens, ',');
    }
  }

  /** Only the non-whitespace characters of a cell decide its tokens. */
  lemma SanitizeSplitIgnoresWhitespace(f: string, g: string)
    requires RemoveWhitespace(f) == RemoveWhitespace(g)
    ensures SanitizeSplit(f) == SanitizeSplit(g)
  {
    WordsConcat(f);
    WordsConcat(g);
  }

  /** A cell without a comma yields one token: the cell with its whitespace deleted. */
  lemma SanitizeSplitSingle(field: string)
    requires ',' !in RemoveWhitespace(field)
    ensures SanitizeSplit(field) == [RemoveWhitespace(field)]
  {
    var t := RemoveWhitespace(field);
    SanitizeSplitOfJoin([t]);
    RemoveWhitespaceOfWord(t);
    SanitizeSplitIgnoresWhitespace(field, t);
  }
}
