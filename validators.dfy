/**
 * The Persian-only validator of name fields (backend/account/validators.py):
 * a text passes when it is one or more characters, each from U+0600 to
 * U+06FF, from U+FB8A to U+FB8C, or whitespace in the sense of the regular
 * expression class `\s` on text patterns.
 */
module Validators {
  import opened Common

  datatype ValidationError = NotPersian

  /** The whitespace characters of the `\s` class on text patterns. */
  predicate IsSpace(c: char) {
    || '\t' <= c <= '\r'
    || '\U{1C}' <= c <= '\U{1F}'
    || c == ' '
    || c == '\U{85}'
    || c == '\U{A0}'
    || c == '\U{1680}'
    || '\U{2000}' <= c <= '\U{200A}'
    || c == '\U{2028}' || c == '\U{2029}'
    || c == '\U{202F}'
    || c == '\U{205F}'
    || c == '\U{3000}'
  }

  /** One character of the class: the Arabic block, three presentation forms, or whitespace. */
  predicate InPersianClass(c: char) {
    || '\U{0600}' <= c <= '\U{06FF}'
    || '\U{FB8A}' <= c <= '\U{FB8C}'
    || IsSpace(c)
  }

  /** The class repeated zero or more times, matched one character at a time from the left. */
  function MatchesClassStar(s: string): (r: bool)
    ensures r <==> forall i | 0 <= i < |s| :: InPersianClass(s[i])
    decreases |s|
  {
    s == [] || (InPersianClass(s[0]) && MatchesClassStar(s[1..]))
  }

  /**
   * `is_persian_only(text)`: returns nothing when the whole text matches
   * the class repeated one or more times, and raises a validation error
   * otherwise, the empty text included.
   */
  function IsPersianOnly(text: string): (r: Outcome<ValidationError>)
    ensures r.Pass? <==> |text| >= 1 && forall i | 0 <= i < |text| :: InPersianClass(text[i])
    ensures r.Fail? ==> r.error == NotPersian
  {
    if text != [] && InPersianClass(text[0]) && MatchesClassStar(text[1..]) then Pass else Fail(NotPersian)
  }

  /** The empty text is refused. */
  lemma EmptyRejected()
    ensures IsPersianOnly("") == Fail(NotPersian)
  {
  }

  /** A text made only of whitespace is accepted. */
  lemma WhitespaceAccepted(text: string)
    requires |text| >= 1 && forall i | 0 <= i < |text| :: IsSpace(text[i])
    ensures IsPersianOnly(text) == Pass
  {
  }

  /** One character outside the class anywhere in the text is enough to refuse it. */
  lemma OneForeignCharRejects(before: string, c: char, after: string)
    requires !InPersianClass(c)
    ensures IsPersianOnly(before + [c] + after) == Fail(NotPersian)
  {
    assert (before + [c] + after)[|before|] == c;
  }

  /** Two accepted texts written one after the other are accepted. */
  lemma AcceptedClosedUnderConcatenation(a: string, b: string)
    requires IsPersianOnly(a) == Pass && IsPersianOnly(b) == Pass
    ensures IsPersianOnly(a + b) == Pass
  {
    forall i | 0 <= i < |a + b| ensures InPersianClass((a + b)[i]) {
      if i < |a| {
        assert (a + b)[i] == a[i];
      } else {
        assert (a + b)[i] == b[i - |a|];
      }
    }
  }

  /** An accepted text splits into accepted pieces at any inner point. */
  lemma AcceptedPiecesAccepted(a: string, b: string)
    requires |a| >= 1 && |b| >= 1
    requires IsPersianOnly(a + b) == Pass
    ensures IsPersianOnly(a) == Pass && IsPersianOnly(b) == Pass
  {
    forall i | 0 <= i < |a| ensures InPersianClass(a[i]) {
      assert a[i] == (a + b)[i];
    }
    forall i | 0 <= i < |b| ensures InPersianClass(b[i]) {
      assert b[i] == (a + b)[|a| + i];
    }
  }
}
