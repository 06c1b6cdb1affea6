/**
 * `detect_content_type`: the client's guess at what a piece of clipboard
 * text is.  After stripping, text that starts with `http://` or `https://`
 * in any case is a URL; long text mixing digits, letters and other
 * characters is a password; anything else is plain text.
 */
module Clipboard {
  import opened Text

  /**
   * One character of `_URL_RE` against one character of the text under
   * `re.IGNORECASE`: the pattern letter in either case.  Python's Unicode
   * case folding also matches `s` against LATIN SMALL LETTER LONG S
   * (U+017F); no other character folds to `h`, `t`, `p` or `s`.
   */
  predicate LetterMatches(c: char, letter: char)
    requires 'a' <= letter <= 'z'
  {
    c == letter || c as int == letter as int - 32 || (letter == 's' && c == '\U{17F}')
  }

  /** `_URL_RE.match(t)`, the pattern `^https?://` with `re.IGNORECASE`. */
  predicate IsUrl(t: string)
  {
    && |t| >= 7
    && LetterMatches(t[0], 'h') && LetterMatches(t[1], 't') && LetterMatches(t[2], 't') && LetterMatches(t[3], 'p')
    && (t[4..7] == "://" || (|t| >= 8 && LetterMatches(t[4], 's') && t[5..8] == "://"))
  }

  /** The character classes the password heuristic looks for. */
  datatype CharClass = Digit | Letter | Symbol

  predicate InClass(c: char, k: CharClass)
  {
    match k
    case Digit => IsDigit(c)
    case Letter => IsAlpha(c)
    case Symbol => !IsAlnum(c)
  }

  /** `any(...)` over the characters of `t`, scanning from the left. */
  function AnyIn(t: string, k: CharClass): bool
  {
    if t == [] then false else InClass(t[0], k) || AnyIn(t[1..], k)
  }

  /** The scan finds a character of the class exactly when the text holds one. */
  lemma {:induction false} AnyInExists(t: string, k: CharClass)
    ensures AnyIn(t, k) <==> exists i :: 0 <= i < |t| && InClass(t[i], k)
  {
    if t != [] {
      AnyInExists(t[1..], k);
      if exists i :: 0 <= i < |t[1..]| && InClass(t[1..][i], k) {
        var i :| 0 <= i < |t[1..]| && InClass(t[1..][i], k);
        assert InClass(t[i + 1], k);
      }
      if exists i :: 0 <= i < |t| && InClass(t[i], k) {
        var i :| 0 <= i < |t| && InClass(t[i], k);
        if i > 0 {
          assert InClass(t[1..][i - 1], k);
        }
      }
    }
  }

  predicate Has(t: string, k: CharClass)
  {
    exists i :: 0 <= i < |t| && InClass(t[i], k)
  }

  /** The password heuristic on stripped text: eight characters or more, of all three classes. */
  predicate LooksLikePassword(t: string)
  {
    |t| >= 8 && Has(t, Digit) && Has(t, Letter) && Has(t, Symbol)
  }

  /** The classification of text already stripped; the URL test comes first. */
  function Classify(t: string): (r: string)
    ensures r == "url" || r == "password" || r == "text"
    ensures r == "url" <==> IsUrl(t)
    ensures r == "password" <==> !IsUrl(t) && LooksLikePassword(t)
  {
    AnyInExists(t, Digit);
    AnyInExists(t, Letter);
    AnyInExists(t, Symbol);
    if IsUrl(t) then "url"
    else if |t| >= 8 && AnyIn(t, Digit) && AnyIn(t, Letter) && AnyIn(t, Symbol) then "password"
    else "text"
  }

  /** `detect_content_type`: classify the text with surrounding whitespace stripped. */
  function DetectContentType(text: string): (r: string)
    ensures r == "url" || r == "password" || r == "text"
    ensures r == "url" <==> IsUrl(Strip(text))
    ensures r == "password" <==> !IsUrl(Strip(text)) && LooksLikePassword(Strip(text))
  {
    Classify(Strip(text))
  }

  /** Folding of the pattern letters: ASCII capitals to lower case, and U+017F to `s`. */
  function Fold(c: char): char
  {
    if c == '\U{17F}' then 's' else LowerChar(c)
  }

  function FoldAll(t: string): (r: string)
    ensures |r| == |t|
    ensures forall i :: 0 <= i < |t| ==> r[i] == Fold(t[i])
  {
    if t == [] then [] else [Fold(t[0])] + FoldAll(t[1..])
  }

  predicate IsPrefix(p: string, t: string)
  {
    |p| <= |t| && t[..|p|] == p
  }

  /** Each pattern letter matches exactly the characters that fold to it. */
  lemma FoldMatches(c: char, letter: char)
    requires letter == 'h' || letter == 't' || letter == 'p' || letter == 's'
    ensures LetterMatches(c, letter) <==> Fold(c) == letter
  {
  }

  /** Only `:` and `/` fold to themselves. */
  lemma FoldPunctuation(c: char, p: char)
    requires p == ':' || p == '/'
    ensures Fold(c) == p <==> c == p
  {
  }

  lemma FoldedSchemeAt(t: string, p: string, i: nat)
    requires i < |p| <= |t| && FoldAll(t)[..|p|] == p
    ensures Fold(t[i]) == p[i]
  {
    assert FoldAll(t)[..|p|][i] == FoldAll(t)[i];
  }

  lemma UrlFolds(t: string)
    requires IsUrl(t)
    ensures IsPrefix("http://", FoldAll(t)) || IsPrefix("https://", FoldAll(t))
  {
    var f := FoldAll(t);
    FoldMatches(t[0], 'h'); FoldMatches(t[1], 't'); FoldMatches(t[2], 't'); FoldMatches(t[3], 'p');
    if t[4..7] == "://" {
      assert t[4] == ':' && t[5] == '/' && t[6] == '/';
      assert f[..7] == "http://";
    } else {
      FoldMatches(t[4], 's');
      assert t[5] == ':' && t[6] == '/' && t[7] == '/';
      assert f[..8] == "https://";
    }
  }

  lemma PlainSchemeIsUrl(t: string)
    requires IsPrefix("http://", FoldAll(t))
    ensures IsUrl(t)
  {
    forall i | 0 <= i < 7 ensures Fold(t[i]) == "http://"[i] {
      FoldedSchemeAt(t, "http://", i);
    }
    FoldMatches(t[0], 'h'); FoldMatches(t[1], 't'); FoldMatches(t[2], 't'); FoldMatches(t[3], 'p');
    FoldPunctuation(t[4], ':'); FoldPunctuation(t[5], '/'); FoldPunctuation(t[6], '/');
    assert t[4..7] == "://";
  }

  lemma SecureSchemeIsUrl(t: string)
    requires IsPrefix("https://", FoldAll(t))
    ensures IsUrl(t)
  {
    forall i | 0 <= i < 8 ensures Fold(t[i]) == "https://"[i] {
      FoldedSchemeAt(t, "https://", i);
    }
    FoldMatches(t[0], 'h'); FoldMatches(t[1], 't'); FoldMatches(t[2], 't'); FoldMatches(t[3], 'p');
    FoldMatches(t[4], 's');
    FoldPunctuation(t[5], ':'); FoldPunctuation(t[6], '/'); FoldPunctuation(t[7], '/');
    assert t[5..8] == "://";
  }

  /**
   * Reference definition of the URL test: after folding case, the text
   * begins with `http://` or `https://`.
   */
  lemma UrlIsFoldedPrefix(t: string)
    ensures IsUrl(t) <==> IsPrefix("http://", FoldAll(t)) || IsPrefix("https://", FoldAll(t))
  {
    if IsUrl(t) {
      UrlFolds(t);
    } else if IsPrefix("http://", FoldAll(t)) {
      PlainSchemeIsUrl(t);
    } else if IsPrefix("https://", FoldAll(t)) {
      SecureSchemeIsUrl(t);
    }
  }

  /** Whitespace around the clipboard text does not change its classification. */
  lemma ClassifyIgnoresPadding(w1: string, text: string, w2: string)
    requires AllSpace(w1) && AllSpace(w2)
    ensures DetectContentType(w1 + text + w2) == DetectContentType(text)
  {
    StripIgnoresPadding(w1, text, w2);
  }

  /** Classifying already-stripped text gives the same answer. */
  lemma ClassifyStripped(text: string)
    ensures DetectContentType(Strip(text)) == DetectContentType(text)
  {
    StripIdempotent(text);
  }
}
