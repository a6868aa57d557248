/** The string operations of the .NET base library that the extension
    methods use, restricted to what the model needs: `char.IsWhiteSpace`,
    `string.ToLower`, `string.EndsWith` and `System.IO.Path.GetFileName`. */
module Text {

  import opened Wrappers

  /** `char.IsWhiteSpace`: the Unicode space separators, line and paragraph
      separators, and the control characters U+0009 to U+000D and U+0085. */
  predicate IsWhiteSpace(c: char)
    ensures ('0' <= c <= '9' || 'A' <= c <= 'Z' || 'a' <= c <= 'z' || IsSeparator(c) || c == '.') ==> !IsWhiteSpace(c)
  {
    || ('\U{0009}' <= c <= '\U{000D}')
    || c == '\U{0020}' || c == '\U{0085}' || c == '\U{00A0}' || c == '\U{1680}'
    || ('\U{2000}' <= c <= '\U{200A}')
    || c == '\U{2028}' || c == '\U{2029}' || c == '\U{202F}' || c == '\U{205F}' || c == '\U{3000}'
  }

  /** `string.IsNullOrWhiteSpace`; `None` is a null reference. */
  predicate IsNullOrWhiteSpace(s: Option<string>)
    ensures s == None || s == Some([]) ==> IsNullOrWhiteSpace(s)
    ensures !IsNullOrWhiteSpace(s) <==> s.Some? && exists i :: 0 <= i < |s.value| && !IsWhiteSpace(s.value[i])
  {
    match s
    case None => true
    case Some(t) => forall i :: 0 <= i < |t| ==> IsWhiteSpace(t[i])
  }

  /** Lower-casing of one character, restricted to ASCII letters. */
  function LowerChar(c: char): (r: char)
    ensures !('A' <= r <= 'Z')
    ensures 'A' <= c <= 'Z' ==> 'a' <= r <= 'z'
    ensures !('A' <= c <= 'Z') ==> r == c
  {
    if 'A' <= c <= 'Z' then (c as int + 32) as char else c
  }

  /** `string.ToLower`, restricted to ASCII letters. */
  function Lower(s: string): (r: string)
    ensures |r| == |s|
  {
    seq(|s|, i requires 0 <= i < |s| => LowerChar(s[i]))
  }

  /** Two strings that differ only in the case of ASCII letters. */
  predicate EqualIgnoringCase(s: string, t: string) {
    Lower(s) == Lower(t)
  }

  /** `string.EndsWith(suffix)`. */
  predicate EndsWith(s: string, suffix: string)
  {
    |suffix| <= |s| && s[|s| - |suffix|..] == suffix
  }

  /** `EndsWith` compares the last characters of `s`, one by one, with
      those of `suffix`. */
  lemma EndsWithPositions(s: string, suffix: string)
    ensures EndsWith(s, suffix) <==>
      |suffix| <= |s| && forall i :: 0 <= i < |suffix| ==> s[|s| - |suffix| + i] == suffix[i]
  {
  }

  /** The characters `System.IO.Path.GetFileName` splits on under Windows:
      the directory separator, the alternative directory separator and the
      volume separator. */
  predicate IsSeparator(c: char)
    ensures IsSeparator(c) ==> !('A' <= c <= 'Z') && !('a' <= c <= 'z') && c != '.'
  {
    c == '\\' || c == '/' || c == ':'
  }

  predicate NoSeparator(s: string) {
    forall i :: 0 <= i < |s| ==> !IsSeparator(s[i])
  }

  /** `System.IO.Path.GetFileName`: the part of `path` after its last
      separator, or all of `path` when it has none. */
  function FileName(path: string): string {
    if path == [] then []
    else if IsSeparator(path[|path| - 1]) then []
    else FileName(path[..|path| - 1]) + [path[|path| - 1]]
  }

  /** The file name is the longest suffix of the path that holds no
      separator. */
  lemma {:induction false} FileNameIsLastSegment(path: string)
    ensures var r := FileName(path);
      && |r| <= |path| && r == path[|path| - |r|..]
      && NoSeparator(r)
      && (|r| < |path| ==> IsSeparator(path[|path| - |r| - 1]))
  {
    if path != [] && !IsSeparator(path[|path| - 1]) {
      FileNameIsLastSegment(path[..|path| - 1]);
    }
  }

  lemma LowerIdempotent(s: string)
    ensures Lower(Lower(s)) == Lower(s)
  {
  }

  /** A string without upper-case ASCII letters is its own lower-casing. */
  lemma LowerOfLowercase(s: string)
    requires forall i :: 0 <= i < |s| ==> !('A' <= s[i] <= 'Z')
    ensures Lower(s) == s
  {
  }

  /** Lower-casing works character by character, so it distributes over
      concatenation. */
  lemma LowerOfConcat(s: string, t: string)
    ensures Lower(s + t) == Lower(s) + Lower(t)
  {
  }

  /** A string ends with whatever was appended last. */
  lemma EndsWithConcat(s: string, suffix: string)
    ensures EndsWith(s + suffix, suffix)
  {
    assert (s + suffix)[|s|..] == suffix;
  }

  /** Lower-casing never creates or removes a separator. */
  lemma LowerKeepsSeparators(c: char)
    ensures IsSeparator(LowerChar(c)) <==> IsSeparator(c)
  {
  }

  /** The file name of a directory joined with a name is that name. */
  lemma FileNameOfJoin(directory: string, name: string)
    requires directory == [] || IsSeparator(directory[|directory| - 1])
    requires NoSeparator(name)
    ensures FileName(directory + name) == name
  {
    var p := directory + name;
    FileNameIsLastSegment(p);
    assert p[|p| - |name|..] == name;
  }

  lemma LowerOfPrefix(s: string, n: nat)
    requires n <= |s|
    ensures Lower(s[..n]) == Lower(s)[..n]
  {
  }

  lemma LowerOfAppend(s: string, c: char)
    ensures Lower(s + [c]) == Lower(s) + [LowerChar(c)]
  {
  }

  /** Paths that differ only in letter case have file names that differ
      only in letter case. */
  lemma {:induction false} FileNameIgnoresCase(p: string, q: string)
    requires EqualIgnoringCase(p, q)
    ensures EqualIgnoringCase(FileName(p), FileName(q))
  {
    if p != [] {
      var n := |p| - 1;
      assert LowerChar(p[n]) == Lower(p)[n] == Lower(q)[n] == LowerChar(q[n]);
      LowerKeepsSeparators(p[n]);
      LowerKeepsSeparators(q[n]);
      if !IsSeparator(p[n]) {
        LowerOfPrefix(p, n);
        LowerOfPrefix(q, n);
        FileNameIgnoresCase(p[..n], q[..n]);
        LowerOfAppend(FileName(p[..n]), p[n]);
        LowerOfAppend(FileName(q[..n]), q[n]);
      }
    }
  }
}
