/**
 * The name under which the extracted table is offered for download: the
 * selected dataset identifier with surrounding whitespace removed and every
 * `/` replaced by `_`.
 */
module DownloadName {
  import opened Results

  /** Python's `str.isspace` for one character: the characters `str.strip()` removes. */
  function IsSpace(c: char): (b: bool)
    ensures b ==> c != '/' && c != '_' && c != '.' && c != '-'
    ensures b ==> !('0' <= c <= '9') && !('A' <= c <= 'Z') && !('a' <= c <= 'z')
  {
    || ('\t' <= c <= '\r')
    || ('\U{1C}' <= c <= ' ')
    || c == '\U{85}' || c == '\U{A0}' || c == '\U{1680}'
    || ('\U{2000}' <= c <= '\U{200A}')
    || c == '\U{2028}' || c == '\U{2029}' || c == '\U{202F}' || c == '\U{205F}' || c == '\U{3000}'
  }

  /** True when `s` neither starts nor ends with whitespace. */
  predicate Trimmed(s: string)
  {
    s == [] || (!IsSpace(s[0]) && !IsSpace(s[|s| - 1]))
  }

  /** The number of whitespace characters `s` starts with. */
  function LeadingSpaces(s: string): (n: nat)
    ensures n <= |s|
    ensures forall k :: 0 <= k < n ==> IsSpace(s[k])
    ensures n == |s| || !IsSpace(s[n])
  {
    if s != [] && IsSpace(s[0]) then 1 + LeadingSpaces(s[1..]) else 0
  }

  /** The number of whitespace characters `s` ends with. */
  function TrailingSpaces(s: string): (n: nat)
    ensures n <= |s|
    ensures forall k :: |s| - n <= k < |s| ==> IsSpace(s[k])
    ensures n == |s| || !IsSpace(s[|s| - n - 1])
  {
    if s != [] && IsSpace(s[|s| - 1]) then 1 + TrailingSpaces(s[..|s| - 1]) else 0
  }

  /** Removes leading whitespace: the longest suffix that does not start with a space. */
  function StripLeft(s: string): (r: string)
    ensures |r| <= |s| && r == s[|s| - |r|..]
    ensures forall k :: 0 <= k < |s| - |r| ==> IsSpace(s[k])
    ensures r == [] || !IsSpace(r[0])
  {
    s[LeadingSpaces(s)..]
  }

  /** Removes trailing whitespace: the longest prefix that does not end with a space. */
  function StripRight(s: string): (r: string)
    ensures |r| <= |s| && r == s[..|r|]
    ensures forall k :: |r| <= k < |s| ==> IsSpace(s[k])
    ensures r == [] || !IsSpace(r[|r| - 1])
  {
    s[..|s| - TrailingSpaces(s)]
  }

  /** Python's `str.strip()` with no argument. */
  function Strip(s: string): (r: string)
    ensures |r| <= |s| && Trimmed(r)
  {
    StripRight(StripLeft(s))
  }

  /** Python's `str.replace(old, new)` for a one-character `old` and `new`. */
  function Replace(s: string, target: char, replacement: char): (r: string)
    ensures |r| == |s|
    ensures forall i :: 0 <= i < |s| ==> r[i] == (if s[i] == target then replacement else s[i])
  {
    if s == [] then [] else [if s[0] == target then replacement else s[0]] + Replace(s[1..], target, replacement)
  }

  /** `geedata.strip().replace("/", "_")`. */
  function FileName(geedata: string): (r: string)
    ensures '/' !in r
    ensures |r| <= |geedata|
  {
    Replace(Strip(geedata), '/', '_')
  }

  /**
   * The name derived from the select box's value after `str(geedata)`: the
   * selected id, or `"None"` when the box has no option to select.
   */
  function SelectedFileName(selection: Option<string>): (r: string)
    ensures selection.None? ==> r == "None"
    ensures selection.Some? ==> r == FileName(selection.value)
  {
    match selection
    case None =>
      var none := "None";
      assert !IsSpace(none[0]) && !IsSpace(none[3]) && '/' !in none;
      FileNameFixed(none);
      FileName(none)
    case Some(id) => FileName(id)
  }

  // ---------------------------------------------------------------------------
  // Properties
  // ---------------------------------------------------------------------------

  /**
   * `Strip(s)` is the window of `s` left after dropping whitespace on both
   * sides: everything outside it is whitespace and its ends are not.
   */
  lemma StripIsWindow(s: string)
    ensures
      var lead := |s| - |StripLeft(s)|;
      var r := Strip(s);
      && lead + |r| <= |s|
      && r == s[lead..lead + |r|]
      && Trimmed(r)
      && (forall k :: 0 <= k < lead ==> IsSpace(s[k]))
      && (forall k :: lead + |r| <= k < |s| ==> IsSpace(s[k]))
  {
    var left := StripLeft(s);
    var lead := |s| - |left|;
    var r := StripRight(left);
    assert r == Strip(s);
    assert r == s[lead..lead + |r|] by {
      assert left == s[lead..] && r == left[..|r|];
    }
    forall k | lead + |r| <= k < |s|
      ensures IsSpace(s[k])
    {
      assert s[k] == left[k - lead];
    }
  }

  /** A string without surrounding whitespace is left as it is by `strip()`. */
  lemma StripTrimmed(s: string)
    requires Trimmed(s)
    ensures Strip(s) == s
  {
  }

  /** `strip()` is idempotent. */
  lemma StripIdempotent(s: string)
    ensures Strip(Strip(s)) == Strip(s)
  {
    StripIsWindow(s);
    StripTrimmed(Strip(s));
  }

  /** Replacing a character that does not occur changes nothing. */
  lemma ReplaceAbsent(s: string, target: char, replacement: char)
    requires target !in s
    ensures Replace(s, target, replacement) == s
  {
  }

  /**
   * The file name has no `/`, is as long as the stripped identifier, and keeps
   * every other character of the stripped identifier in place.
   */
  lemma FileNameShape(geedata: string)
    ensures
      var stripped := Strip(geedata);
      var name := FileName(geedata);
      && '/' !in name
      && |name| == |stripped|
      && forall i :: 0 <= i < |stripped| ==>
           name[i] == (if stripped[i] == '/' then '_' else stripped[i])
  {
  }

  /** An identifier without surrounding whitespace and without `/` is its own file name. */
  lemma FileNameFixed(s: string)
    requires Trimmed(s) && '/' !in s
    ensures FileName(s) == s
  {
    StripTrimmed(s);
    ReplaceAbsent(s, '/', '_');
  }

  /** Deriving the file name a second time gives the same name. */
  lemma FileNameIdempotent(geedata: string)
    ensures FileName(FileName(geedata)) == FileName(geedata)
  {
    var stripped := Strip(geedata);
    var name := FileName(geedata);
    StripIsWindow(geedata);
    FileNameShape(geedata);
    // '_' is not whitespace, so replacing '/' by it keeps the ends non-space.
    assert Trimmed(name) by {
      if name != [] {
        assert name[0] == (if stripped[0] == '/' then '_' else stripped[0]);
        assert name[|name| - 1] == (if stripped[|stripped| - 1] == '/' then '_' else stripped[|stripped| - 1]);
      }
    }
    StripTrimmed(name);
    ReplaceAbsent(name, '/', '_');
  }
}
