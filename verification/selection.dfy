/**
  Selection handling of content.js: `sanitizeText` and the test that decides
  whether a sanitised selection is a single word worth looking up.
 */
module Selection {
  import Text

  /** The class `[.,;:"“”'‘’!?]` of the trailing-punctuation pattern. */
  predicate IsTrailingPunct(c: char) {
    c in {'.', ',', ';', ':', '"', '\U{201C}', '\U{201D}', '\'', '\U{2018}', '\U{2019}', '!', '?'}
  }

  /** The pattern `/[.,;:"“”'‘’!?]+$/` matches at position `i` of `s`: from `i` to
      the end there is at least one character and all are in the class. */
  ghost predicate TrailingMatchAt(s: string, i: int) {
    0 <= i < |s| && forall k :: i <= k < |s| ==> IsTrailingPunct(s[k])
  }

  /** `s.replace(/[.,;:"“”'‘’!?]+$/, '')`: drops the maximal trailing run of
      punctuation. */
  function StripTrailingPunct(s: string): (r: string)
    ensures |r| <= |s| && r == s[..|r|]
    ensures forall k :: |r| <= k < |s| ==> IsTrailingPunct(s[k])
    ensures r == [] || !IsTrailingPunct(r[|r| - 1])
  {
    if |s| > 0 && IsTrailingPunct(s[|s| - 1]) then StripTrailingPunct(s[..|s| - 1]) else s
  }

  /** The replacement removes exactly the leftmost match of the pattern, and leaves
      `s` alone when the pattern does not match. */
  lemma {:induction false} StripTrailingIsLeftmostMatch(s: string)
    ensures forall i :: TrailingMatchAt(s, i) && (forall j :: 0 <= j < i ==> !TrailingMatchAt(s, j))
                        ==> StripTrailingPunct(s) == s[..i]
    ensures (forall i :: 0 <= i < |s| ==> !TrailingMatchAt(s, i)) ==> StripTrailingPunct(s) == s
  {
    var r := StripTrailingPunct(s);
    forall i | TrailingMatchAt(s, i) && (forall j :: 0 <= j < i ==> !TrailingMatchAt(s, j))
      ensures r == s[..i]
    {
      if |r| < i {
        assert TrailingMatchAt(s, |r|);
      }
    }
    if |r| < |s| {
      assert TrailingMatchAt(s, |r|);
    }
  }

  /** `s.replace(/^['"]/, '')`: drops one leading ASCII quote or apostrophe. */
  function StripLeadingQuote(s: string): string {
    if |s| > 0 && (s[0] == '\'' || s[0] == '"') then s[1..] else s
  }

  /** `sanitizeText(text)`: trim, drop the trailing punctuation run, then drop one
      leading ASCII quote. The result is the contiguous piece of the trimmed text
      `t` that ends where the trailing run `t[|u|..]` begins and starts at most one
      character later than `t`, at a quote it skipped; it is not trimmed again and
      does not end in trailing punctuation. */
  function Sanitize(text: string): (r: string)
    ensures var t := Text.Trim(text);
            var u := StripTrailingPunct(t);
            && |u| - 1 <= |r| <= |u| <= |t|
            && r == t[|u| - |r|..|u|]
            && (forall k :: |u| <= k < |t| ==> IsTrailingPunct(t[k]))
            && (|r| < |u| <==> |u| > 0 && (t[0] == '\'' || t[0] == '"'))
    ensures r == [] || !IsTrailingPunct(r[|r| - 1])
  {
    StripLeadingQuote(StripTrailingPunct(Text.Trim(text)))
  }

  /** A word with no whitespace or quote in front and no whitespace or trailing
      punctuation at the end is left as it is. */
  lemma SanitizeUnchanged(s: string)
    requires s != [] && !Text.IsWhitespace(s[0]) && s[0] != '\'' && s[0] != '"'
    requires !Text.IsWhitespace(s[|s| - 1]) && !IsTrailingPunct(s[|s| - 1])
    ensures Sanitize(s) == s
  {
    Text.TrimUnchanged(s);
  }

  /** `selectedText && selectedText.length > 1 && !selectedText.includes(' ')`;
      the length counts UTF-16 code units. */
  predicate Accepts(s: string) {
    s != [] && Text.Utf16Length(s) > 1 && ' ' !in s
  }

  /** A selection is accepted exactly when it holds at least two characters, or one
      character outside the Basic Multilingual Plane, and no ASCII space. Other
      whitespace such as tabs and newlines does not make it rejected. */
  lemma {:induction false} AcceptsExactly(s: string)
    ensures Accepts(s) <==>
              && (|s| >= 2 || (|s| == 1 && s[0] as int > 0xFFFF))
              && (forall i :: 0 <= i < |s| ==> s[i] != ' ')
  {
    if |s| == 1 {
      assert s[1..] == [];
      assert Text.Utf16Length(s) == (if s[0] as int > 0xFFFF then 2 else 1);
    }
  }

}
