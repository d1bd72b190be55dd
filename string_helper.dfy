/** StringHelper: null-tolerant substring helpers and blank tests. A Java
    `String` argument that may be null is an `Option<string>`. */
module StringHelper {
  import opened Base

  /** `word` occurs in `s` starting at index `i`. */
  predicate OccursAt(word: string, s: string, i: int) {
    0 <= i && i + |word| <= |s| && s[i..i + |word|] == word
  }

  /** Java's `s.indexOf(word, from)`: the first index at or after `from`
      where `word` occurs, or -1 when there is none. */
  function IndexFrom(word: string, s: string, from: nat): (r: int)
    decreases |s| - from
    ensures r == -1 || (from <= r && OccursAt(word, s, r))
    ensures forall j :: from <= j && (r == -1 || j < r) ==> !OccursAt(word, s, j)
  {
    if from + |word| > |s| then -1
    else if s[from..from + |word|] == word then from
    else IndexFrom(word, s, from + 1)
  }

  /** Java's `s.indexOf(word)`. */
  function IndexOf(word: string, s: string): (r: int)
    ensures r == -1 || OccursAt(word, s, r)
    ensures forall j :: 0 <= j && (r == -1 || j < r) ==> !OccursAt(word, s, j)
  {
    IndexFrom(word, s, 0)
  }

  /** The text of `origin` before the first occurrence of `word`; "" when
      either argument is null or `word` does not occur. */
  function BeforeOf(word: Option<string>, origin: Option<string>): (r: string)
    ensures word.None? || origin.None? ==> r == ""
    ensures word.Some? && origin.Some? && IndexOf(word.value, origin.value) < 0 ==> r == ""
    ensures word.Some? && origin.Some? && IndexOf(word.value, origin.value) >= 0 ==>
              r + word.value <= origin.value &&
              forall j :: 0 <= j < |r| ==> !OccursAt(word.value, origin.value, j)
  {
    if word.None? || origin.None? then ""
    else
      var index := IndexOf(word.value, origin.value);
      if index < 0 then "" else origin.value[..index]
  }

  /** The text of `origin` from one character past the first occurrence of
      `word` (whatever the length of `word`); "" when either argument is null
      or `word` does not occur. `substring(index + 1)` fails when the index
      is the end of `origin`, which happens only for an empty word in an
      empty origin. */
  function AfterOf(word: Option<string>, origin: Option<string>): (r: Result<string>)
    ensures word.None? || origin.None? ==> r == Ok("")
    ensures word.Some? && origin.Some? && IndexOf(word.value, origin.value) < 0 ==> r == Ok("")
    ensures word.Some? && origin.Some? && IndexOf(word.value, origin.value) >= 0 &&
            !(word.value == "" && origin.value == "") ==>
              r == Ok(origin.value[IndexOf(word.value, origin.value) + 1..])
  {
    if word.None? || origin.None? then Ok("")
    else if word.value == "" && origin.value != "" then
      IndexOfEmptyWord(origin.value);
      Ok(origin.value[1..])
    else
      var index := IndexOf(word.value, origin.value);
      if index < 0 then Ok("")
      else if index + 1 > |origin.value| then Err(IndexOutOfBounds)
      else Ok(origin.value[index + 1..])
  }

  /** Java's `Character.isWhitespace`: the Unicode space, line and paragraph
      separators other than the no-break spaces, and the control characters
      U+0009..U+000D and U+001C..U+001F. */
  predicate IsWhitespace(c: char) {
    var n := c as int;
    (0x09 <= n <= 0x0D) || (0x1C <= n <= 0x20) || n == 0x1680 ||
    (0x2000 <= n <= 0x2006) || (0x2008 <= n <= 0x200A) ||
    n == 0x2028 || n == 0x2029 || n == 0x205F || n == 0x3000
  }

  /** Null, empty, or made of whitespace only (`String.isBlank`). */
  predicate IsBlank(value: Option<string>) {
    value.None? || forall i :: 0 <= i < |value.value| ==> IsWhitespace(value.value[i])
  }

  predicate IsNotBlank(value: Option<string>) {
    !IsBlank(value)
  }

  /** A present string is not blank exactly when some character of it is not
      whitespace; null and "" are blank. */
  lemma NotBlankHasVisibleChar(value: Option<string>)
    ensures IsNotBlank(value) <==>
              value.Some? && exists i :: 0 <= i < |value.value| && !IsWhitespace(value.value[i])
    ensures IsBlank(None) && IsBlank(Some(""))
  {
  }

  /** The empty word occurs first at index 0 of every string. */
  lemma IndexOfEmptyWord(s: string)
    ensures IndexOf("", s) == 0
  {
    assert OccursAt("", s, 0);
  }

  /** The text after the match starts one character past the match's start,
      whatever the word's length: `afterOf("ab", "xaby")` is `"by"`. */
  lemma AfterOfSkipsOneChar()
    ensures AfterOf(Some("ab"), Some("xaby")) == Ok("by")
  {
    var origin := "xaby";
    assert OccursAt("ab", origin, 1) by {
      assert origin[1..3] == "ab";
    }
    assert !OccursAt("ab", origin, 0) by {
      assert origin[0..2][0] == 'x';
    }
    assert IndexOf("ab", origin) == 1;
    assert origin[2..] == "by";
  }

  /** `afterOf` fails only for an empty word in an empty origin. */
  lemma AfterOfFailsOnlyOnEmpty(word: Option<string>, origin: Option<string>)
    ensures AfterOf(word, origin).Err? <==> word == Some("") && origin == Some("")
  {
    if word.Some? && origin.Some? {
      var index := IndexOf(word.value, origin.value);
      if word.value == "" {
        IndexOfEmptyWord(origin.value);
      } else if index >= 0 {
        assert OccursAt(word.value, origin.value, index);
      }
    }
  }

  /** A one-character word splits its origin exactly: what is before it, the
      word, and what is after it give back the origin. */
  lemma SplitRoundTrip(word: string, origin: string)
    requires |word| == 1 && IndexOf(word, origin) >= 0
    ensures AfterOf(Some(word), Some(origin)).Ok?
    ensures BeforeOf(Some(word), Some(origin)) + word + AfterOf(Some(word), Some(origin)).value == origin
  {
    var index := IndexOf(word, origin);
    assert OccursAt(word, origin, index);
    assert origin == origin[..index] + origin[index..index + 1] + origin[index + 1..];
  }

  /** For a one-character word, occurrence is membership of its character. */
  lemma IndexOfCharFound(c: char, s: string)
    ensures IndexOf([c], s) >= 0 <==> c in s
  {
    if c in s {
      var i :| 0 <= i < |s| && s[i] == c;
      assert s[i..i + 1] == [c];
      assert OccursAt([c], s, i);
    }
    var index := IndexOf([c], s);
    if index >= 0 {
      assert OccursAt([c], s, index);
      assert s[index] == s[index..index + 1][0];
    }
  }
}
