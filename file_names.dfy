/**
 * The file-name sanitizer of todoist_full_offline_backup/utils.py.
 *
 * `sanitize_file_name` substitutes "_" for every match of the character
 * class `[^a-zA-Z0-9_.\- ]`, i.e. for every character that is not an ASCII
 * letter, an ASCII digit, underscore, dot, hyphen or space.  A Python string is
 * a sequence of code points; a Dafny `char` is a Unicode scalar value, so the lone
 * surrogates U+D800 to U+DFFF that a Python string can hold have no counterpart here.
 */
module FileNames {

  /** The characters the class `[a-zA-Z0-9_.\- ]` admits. */
  predicate IsAllowedChar(c: char)
  {
    ('a' <= c <= 'z') || ('A' <= c <= 'Z') || ('0' <= c <= '9') ||
    c == '_' || c == '.' || c == '-' || c == ' '
  }

  /** Every character of `s` is admitted by the class. */
  predicate AllAllowed(s: string)
  {
    forall i :: 0 <= i < |s| ==> IsAllowedChar(s[i])
  }

  /** What the substitution leaves at one position. */
  function SanitizeChar(c: char): char
  {
    if IsAllowedChar(c) then c else '_'
  }

  /** `sanitize_file_name`: one replacement character per input character. */
  function SanitizeFileName(name: string): (r: string)
    ensures |r| == |name|
  {
    if name == [] then [] else [SanitizeChar(name[0])] + SanitizeFileName(name[1..])
  }

  /** Position by position: an admitted character is kept, any other becomes '_'. */
  lemma {:induction false} SanitizeAt(name: string, i: nat)
    requires i < |name|
    ensures SanitizeFileName(name)[i] == if IsAllowedChar(name[i]) then name[i] else '_'
  {
    if i > 0 {
      SanitizeAt(name[1..], i - 1);
    }
  }

  /** The output only holds characters of the class. */
  lemma SanitizedAlphabet(name: string)
    ensures AllAllowed(SanitizeFileName(name))
  {
    forall i | 0 <= i < |name|
      ensures IsAllowedChar(SanitizeFileName(name)[i])
    {
      SanitizeAt(name, i);
    }
  }

  /** A name is returned unchanged exactly when it holds only admitted characters. */
  lemma SanitizeFixedPoint(name: string)
    ensures SanitizeFileName(name) == name <==> AllAllowed(name)
  {
    if AllAllowed(name) {
      forall i | 0 <= i < |name|
        ensures SanitizeFileName(name)[i] == name[i]
      {
        SanitizeAt(name, i);
      }
    } else {
      var i :| 0 <= i < |name| && !IsAllowedChar(name[i]);
      SanitizeAt(name, i);
      assert SanitizeFileName(name)[i] != name[i];
    }
  }

  /** Sanitizing twice is sanitizing once. */
  lemma SanitizeIdempotent(name: string)
    ensures SanitizeFileName(SanitizeFileName(name)) == SanitizeFileName(name)
  {
    SanitizedAlphabet(name);
    SanitizeFixedPoint(SanitizeFileName(name));
  }
}
