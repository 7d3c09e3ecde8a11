// `sanitize_filename`: the file name yt-dlp chose is cleaned before the
// file is moved into place.  Two passes, in this order: a regular-expression
// substitution deletes the unsafe characters (backslash, slash, star, question
// mark, colon, double quote, angle brackets, bar), then every space becomes an
// underscore.
module Sanitize {

  /** The nine characters of the deleting character class. */
  predicate IsUnsafe(c: char) {
    c == '\\' || c == '/' || c == '*' || c == '?' || c == ':' || c == '"' || c == '<' || c == '>' || c == '|'
  }

  /** A name sanitizing leaves as it is: no unsafe character and no space. */
  predicate IsClean(s: string) {
    forall i :: 0 <= i < |s| ==> !IsUnsafe(s[i]) && s[i] != ' '
  }

  function CountUnsafe(s: string): (n: nat)
    ensures n <= |s|
  {
    if s == [] then 0 else (if IsUnsafe(s[0]) then 1 else 0) + CountUnsafe(s[1..])
  }

  /** The `re.sub` pass: every unsafe character is deleted, every other one kept. */
  function RemoveUnsafe(s: string): (r: string)
    ensures |r| + CountUnsafe(s) == |s|
    ensures forall i :: 0 <= i < |r| ==> !IsUnsafe(r[i])
  {
    if s == [] then []
    else if IsUnsafe(s[0]) then RemoveUnsafe(s[1..])
    else [s[0]] + RemoveUnsafe(s[1..])
  }

  /** The `str.replace(' ', '_')` pass: position by position, spaces become underscores. */
  function ReplaceSpaces(s: string): (r: string)
    ensures |r| == |s|
    ensures forall i :: 0 <= i < |s| ==> r[i] == (if s[i] == ' ' then '_' else s[i])
  {
    if s == [] then [] else [if s[0] == ' ' then '_' else s[0]] + ReplaceSpaces(s[1..])
  }

  /** `sanitize_filename`: the result is clean and never longer than the input;
      exactly the unsafe characters are gone. */
  function SanitizeFilename(s: string): (r: string)
    ensures IsClean(r)
    ensures |r| == |s| - CountUnsafe(s)
  {
    ReplaceSpaces(RemoveUnsafe(s))
  }

  /** The `re.sub` pass on one character: deleted if it is in the class, kept
      otherwise.  With `RemoveUnsafeConcat` this determines the pass on every
      string: the safe characters stay, in their order. */
  lemma RemoveUnsafeChar(c: char)
    ensures RemoveUnsafe([c]) == (if IsUnsafe(c) then [] else [c])
  {
    assert [c][1..] == [];
  }

  /** The `re.sub` pass works character by character. */
  lemma {:induction false} RemoveUnsafeConcat(a: string, b: string)
    ensures RemoveUnsafe(a + b) == RemoveUnsafe(a) + RemoveUnsafe(b)
  {
    if a == [] {
      assert a + b == b;
    } else {
      assert (a + b)[0] == a[0];
      assert (a + b)[1..] == a[1..] + b;
      RemoveUnsafeConcat(a[1..], b);
      if !IsUnsafe(a[0]) {
        assert [a[0]] + RemoveUnsafe(a[1..]) + RemoveUnsafe(b) == [a[0]] + (RemoveUnsafe(a[1..]) + RemoveUnsafe(b));
      }
    }
  }

  lemma {:induction false} ReplaceSpacesConcat(a: string, b: string)
    ensures ReplaceSpaces(a + b) == ReplaceSpaces(a) + ReplaceSpaces(b)
  {
    if a != [] {
      assert (a + b)[1..] == a[1..] + b;
      ReplaceSpacesConcat(a[1..], b);
    }
  }

  /** Sanitizing works character by character: the result for a concatenation is the
      concatenation of the results, so every kept character keeps its relative order. */
  lemma SanitizeConcat(a: string, b: string)
    ensures SanitizeFilename(a + b) == SanitizeFilename(a) + SanitizeFilename(b)
  {
    RemoveUnsafeConcat(a, b);
    ReplaceSpacesConcat(RemoveUnsafe(a), RemoveUnsafe(b));
  }

  /** What happens to one character: deleted if unsafe, `_` for a space, kept otherwise.
      With `SanitizeConcat` this determines the whole function. */
  lemma SanitizeChar(c: char)
    ensures SanitizeFilename([c]) == (if IsUnsafe(c) then [] else if c == ' ' then "_" else [c])
  {
    assert [c][1..] == [];
  }

  lemma {:induction false} RemoveUnsafeKeepsSafe(s: string)
    requires forall i :: 0 <= i < |s| ==> !IsUnsafe(s[i])
    ensures RemoveUnsafe(s) == s
  {
    if s != [] {
      RemoveUnsafeKeepsSafe(s[1..]);
    }
  }

  /** A name is left unchanged exactly when it is already clean. */
  lemma SanitizeFixedPoint(s: string)
    ensures SanitizeFilename(s) == s <==> IsClean(s)
  {
    if IsClean(s) {
      RemoveUnsafeKeepsSafe(s);
    }
  }

  /** Sanitizing twice is the same as sanitizing once. */
  lemma SanitizeIdempotent(s: string)
    ensures SanitizeFilename(SanitizeFilename(s)) == SanitizeFilename(s)
  {
    SanitizeFixedPoint(SanitizeFilename(s));
  }
}
