/**
 * The suffix heuristic that decides whether a directory may be a bundle root:
 * its extension must exist, must not be a locale-directory or pass marker,
 * and must not match the version pattern `[0-9]+(\.[0-9]+)?` anywhere.
 */
module Suffix {
  import opened Results
  import opened Text

  /** Extension of a per-locale resource directory (`en.lproj`). */
  const LocaleDirExtension := "lproj"

  /** Extension of pass-type directories, never taken as a bundle root. */
  const PassExtension := "pass"

  /** The rule as evaluated: an unanchored search for the version pattern fails exactly when there is no digit. */
  predicate Qualifies(ext: Option<string>) {
    && ext.Some?
    && ext.value != LocaleDirExtension
    && ext.value != PassExtension
    && !ContainsDigit(ext.value)
  }

  /** `t` is a whole word of the regular language `[0-9]+(\.[0-9]+)?`. */
  ghost predicate VersionToken(t: string) {
    exists m :: 1 <= m <= |t| && AllDigits(t[..m]) &&
      (m == |t| || (t[m] == '.' && m + 1 < |t| && AllDigits(t[m + 1..])))
  }

  /** An unanchored search for the version pattern finds a match somewhere in `s`. */
  ghost predicate VersionPatternFound(s: string) {
    exists i, j :: 0 <= i <= j <= |s| && VersionToken(s[i..j])
  }

  /** The rule exactly as the source writes it, with the regular-expression search. */
  ghost predicate QualifiesAsWritten(ext: Option<string>) {
    && ext.Some?
    && ext.value != LocaleDirExtension
    && ext.value != PassExtension
    && !VersionPatternFound(ext.value)
  }

  /** The unanchored version pattern occurs in `s` exactly when `s` holds a decimal digit. */
  lemma VersionPatternIffDigit(s: string)
    ensures VersionPatternFound(s) <==> ContainsDigit(s)
  {
    if VersionPatternFound(s) {
      var i, j :| 0 <= i <= j <= |s| && VersionToken(s[i..j]);
      var t := s[i..j];
      var m :| 1 <= m <= |t| && AllDigits(t[..m]) &&
        (m == |t| || (t[m] == '.' && m + 1 < |t| && AllDigits(t[m + 1..])));
      assert t[..m][0] == s[i];
      assert IsDigit(s[i]);
    }
    if ContainsDigit(s) {
      var k :| 0 <= k < |s| && IsDigit(s[k]);
      var t := s[k..k + 1];
      assert t[..1] == t;
      assert VersionToken(t);
    }
  }

  /** The digit test used by `Qualifies` decides the same thing as the source's regular-expression test. */
  lemma QualifiesMatchesSource(ext: Option<string>)
    ensures Qualifies(ext) <==> QualifiesAsWritten(ext)
  {
    if ext.Some? {
      VersionPatternIffDigit(ext.value);
    }
  }
}
