/**
 * The image-key test `key.match(/\.(jpe?g|png|gif)$/i)`: a regular
 * expression search, and the set of file extensions it accepts.
 */
module ImagePattern {
  import JsString

  /**
   * Under the `i` flag (without `u`) two characters match when their
   * canonical upper-case forms agree; a non-ASCII character never
   * canonicalises to an ASCII one, so for the ASCII letters of this pattern
   * that is ASCII case folding.
   */
  predicate FoldEq(c: char, p: char) {
    JsString.AsciiUpper(c) == JsString.AsciiUpper(p)
  }

  /** The literal `lit` matches `key` at `pos`, ignoring ASCII case. */
  predicate MatchLiteral(key: string, pos: nat, lit: string) {
    pos + |lit| <= |key| && forall i :: 0 <= i < |lit| ==> FoldEq(key[pos + i], lit[i])
  }

  /** `(jpe?g|png|gif)$` at `pos`; `jpe?g` is tried as "jpeg" and as "jpg". */
  predicate MatchTail(key: string, pos: nat) {
    || (MatchLiteral(key, pos, "jpeg") && pos + 4 == |key|)
    || (MatchLiteral(key, pos, "jpg") && pos + 3 == |key|)
    || (MatchLiteral(key, pos, "png") && pos + 3 == |key|)
    || (MatchLiteral(key, pos, "gif") && pos + 3 == |key|)
  }

  /** The whole pattern matches starting at `pos`. */
  predicate MatchAt(key: string, pos: nat) {
    pos < |key| && key[pos] == '.' && MatchTail(key, pos + 1)
  }

  /**
   * The search tries every start position from `start` on, left to right.
   * Because of `$`, a match puts the dot fourth- or fifth-last in the key.
   */
  predicate SearchFrom(key: string, start: nat)
    decreases |key| - start
    ensures SearchFrom(key, start) ==> DotEndsKey(key, start)
  {
    start <= |key| && (MatchAt(key, start) || SearchFrom(key, start + 1))
  }

  /** The key has at least 4 characters from `start` on, and its fourth- or fifth-last is a dot. */
  predicate DotEndsKey(key: string, start: nat) {
    start + 4 <= |key| && (key[|key| - 4] == '.' || (|key| >= 5 && key[|key| - 5] == '.'))
  }

  /** `key.match(pattern)` is non-null. */
  predicate Matches(key: string)
    ensures Matches(key) ==> DotEndsKey(key, 0)
  {
    SearchFrom(key, 0)
  }

  /** The file extensions the listing accepts, in lower case. */
  const ImageExtensions: seq<string> := [".jpg", ".jpeg", ".png", ".gif"]

  /** `s` ends with the lower-case `suffix`, comparing ASCII-lower-cased characters. */
  predicate EndsWithIgnoringCase(s: string, suffix: string) {
    |suffix| <= |s| && forall i :: 0 <= i < |suffix| ==> JsString.AsciiLower(s[|s| - |suffix| + i]) == suffix[i]
  }

  predicate HasImageExtension(key: string) {
    exists e :: e in ImageExtensions && EndsWithIgnoringCase(key, e)
  }

  lemma {:induction false} SearchFindsMatch(key: string, start: nat) returns (pos: nat)
    requires SearchFrom(key, start)
    ensures start <= pos && MatchAt(key, pos)
    decreases |key| - start
  {
    if MatchAt(key, start) {
      pos := start;
    } else {
      pos := SearchFindsMatch(key, start + 1);
    }
  }

  lemma {:induction false} SearchReachesMatch(key: string, start: nat, pos: nat)
    requires start <= pos && MatchAt(key, pos)
    ensures SearchFrom(key, start)
    decreases pos - start
  {
    if start < pos {
      SearchReachesMatch(key, start + 1, pos);
    }
  }

  /** At the last |e| positions, "." followed by the letters of `e` folded is `e` lower-cased. */
  lemma DotLiteralIsSuffix(key: string, pos: nat, e: string)
    requires |e| >= 1 && e[0] == '.' && forall i :: 1 <= i < |e| ==> 'a' <= e[i] <= 'z'
    requires pos + |e| == |key|
    ensures EndsWithIgnoringCase(key, e) <==> key[pos] == '.' && MatchLiteral(key, pos + 1, e[1..])
  {
    assert JsString.AsciiLower(key[pos]) == '.' <==> key[pos] == '.';
    assert forall i :: 1 <= i < |e| ==> (JsString.AsciiLower(key[pos + i]) == e[i] <==> FoldEq(key[pos + 1 + (i - 1)], e[1..][i - 1]));
  }

  lemma MatchAtIsExtension(key: string, pos: nat)
    ensures MatchAt(key, pos) <==> exists e :: e in ImageExtensions && pos + |e| == |key| && EndsWithIgnoringCase(key, e)
  {
    var n := |key| - pos;
    assert ".jpeg"[1..] == "jpeg" && ".jpg"[1..] == "jpg" && ".png"[1..] == "png" && ".gif"[1..] == "gif";
    if n == 5 {
      DotLiteralIsSuffix(key, pos, ".jpeg");
    } else if n == 4 {
      DotLiteralIsSuffix(key, pos, ".jpg");
      DotLiteralIsSuffix(key, pos, ".png");
      DotLiteralIsSuffix(key, pos, ".gif");
    }
  }

  /** The pattern accepts a key exactly when it ends in one of the image extensions, in any ASCII case. */
  lemma MatchesIffImageExtension(key: string)
    ensures Matches(key) <==> HasImageExtension(key)
  {
    if Matches(key) {
      var pos := SearchFindsMatch(key, 0);
      MatchAtIsExtension(key, pos);
      var e :| e in ImageExtensions && pos + |e| == |key| && EndsWithIgnoringCase(key, e);
    }
    if HasImageExtension(key) {
      var e :| e in ImageExtensions && EndsWithIgnoringCase(key, e);
      MatchAtIsExtension(key, |key| - |e|);
      SearchReachesMatch(key, 0, |key| - |e|);
    }
  }

  /** The pattern keeps "IMG.JPG" and "x.Jpeg", whatever their case. */
  lemma UpperAndMixedCaseKept()
    ensures Matches("IMG.JPG") && Matches("x.Jpeg")
  {
    MatchesIffImageExtension("IMG.JPG");
    assert EndsWithIgnoringCase("IMG.JPG", ".jpg");
    MatchesIffImageExtension("x.Jpeg");
    assert EndsWithIgnoringCase("x.Jpeg", ".jpeg");
  }

  /** No image extension ends a key whose fifth-last character is not '.' and whose third-last folds to none of 'j', 'p', 'g'. */
  lemma NoImageExtension(key: string)
    requires |key| >= 5
    requires key[|key| - 5] != '.' && JsString.AsciiLower(key[|key| - 3]) !in "jpg"
    ensures !HasImageExtension(key)
  {
    forall e | e in ImageExtensions
      ensures !EndsWithIgnoringCase(key, e)
    {
      if |e| == 5 {
        assert JsString.AsciiLower(key[|key| - |e| + 0]) != e[0];
      } else {
        assert JsString.AsciiLower(key[|key| - |e| + 1]) != e[1];
      }
    }
  }

  /** The pattern drops "notes.txt", and "a.jpg.bak" whose image extension is not last. */
  lemma OtherExtensionsDropped()
    ensures !Matches("notes.txt") && !Matches("a.jpg.bak")
  {
    NoImageExtension("notes.txt");
    MatchesIffImageExtension("notes.txt");
    NoImageExtension("a.jpg.bak");
    MatchesIffImageExtension("a.jpg.bak");
  }
}
