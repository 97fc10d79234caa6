/**
 * The text normalization every trie key goes through (`AnimeTrie._normalize_text`):
 * NFKD decomposition, dropping combining marks, lowercasing, stripping surrounding
 * whitespace, deleting characters other than word characters, whitespace and '-', and
 * collapsing each whitespace run to one space, in that order.
 */
module Normalization {
  import opened Text

  /**
   * Step 2: `"".join(c for c in s if not unicodedata.combining(c))`: a single character is
   * kept exactly when it is not a combining mark, and each part of a concatenation is
   * filtered on its own (`DropCombiningAppend`), so every other character is kept, in order.
   */
  function DropCombining(u: Unicode, s: string): (r: string)
    ensures |r| <= |s|
    ensures |s| == 1 ==> r == if u.combining(s[0]) then [] else s
    decreases |s|
  {
    if s == [] then []
    else if u.combining(s[0]) then DropCombining(u, s[1..])
    else [s[0]] + DropCombining(u, s[1..])
  }

  lemma {:induction false} DropCombiningAppend(u: Unicode, a: string, b: string)
    ensures DropCombining(u, a + b) == DropCombining(u, a) + DropCombining(u, b)
    decreases |a|
  {
    if a != [] {
      assert (a + b)[0] == a[0] && (a + b)[1..] == a[1..] + b;
      DropCombiningAppend(u, a[1..], b);
    } else {
      assert a + b == b;
    }
  }

  /** No combining mark is left, and a text without any is unchanged. */
  lemma {:induction false} DropCombiningChars(u: Unicode, s: string)
    ensures forall k :: 0 <= k < |DropCombining(u, s)| ==> !u.combining(DropCombining(u, s)[k])
    ensures (forall k :: 0 <= k < |s| ==> !u.combining(s[k])) ==> DropCombining(u, s) == s
    decreases |s|
  {
    if s != [] {
      DropCombiningChars(u, s[1..]);
      assert forall k :: 1 <= k < |s| ==> s[1..][k - 1] == s[k];
    }
  }

  /** Dropping combining marks is the generic filter that keeps every other character. */
  lemma {:induction false} DropCombiningIsFilter(u: Unicode, s: string)
    ensures DropCombining(u, s) == Filter(s, c => !u.combining(c))
    decreases |s|
  {
    if s != [] {
      DropCombiningIsFilter(u, s[1..]);
    }
  }

  /** The characters `[\w\s-]` admits. */
  predicate Admitted(u: Unicode, c: char) {
    u.isWord(c) || u.isSpace(c) || c == '-'
  }

  /**
   * Step 5: `re.sub(r"[^\w\s-]", "", s)`: a single character is kept exactly when it is
   * admitted, and each part of a concatenation is filtered on its own
   * (`DropPunctuationAppend`), so every admitted character is kept, in order.
   */
  function DropPunctuation(u: Unicode, s: string): (r: string)
    ensures |r| <= |s|
    ensures |s| == 1 ==> r == if Admitted(u, s[0]) then s else []
    decreases |s|
  {
    if s == [] then []
    else if Admitted(u, s[0]) then [s[0]] + DropPunctuation(u, s[1..])
    else DropPunctuation(u, s[1..])
  }

  lemma {:induction false} DropPunctuationAppend(u: Unicode, a: string, b: string)
    ensures DropPunctuation(u, a + b) == DropPunctuation(u, a) + DropPunctuation(u, b)
    decreases |a|
  {
    if a != [] {
      assert (a + b)[0] == a[0] && (a + b)[1..] == a[1..] + b;
      DropPunctuationAppend(u, a[1..], b);
    } else {
      assert a + b == b;
    }
  }

  /** Only admitted characters are left, and a text of admitted characters is unchanged. */
  lemma {:induction false} DropPunctuationChars(u: Unicode, s: string)
    ensures forall k :: 0 <= k < |DropPunctuation(u, s)| ==> Admitted(u, DropPunctuation(u, s)[k])
    ensures (forall k :: 0 <= k < |s| ==> Admitted(u, s[k])) ==> DropPunctuation(u, s) == s
    decreases |s|
  {
    if s != [] {
      DropPunctuationChars(u, s[1..]);
      assert forall k :: 1 <= k < |s| ==> s[1..][k - 1] == s[k];
    }
  }

  /** Deleting punctuation is the generic filter that keeps the admitted characters. */
  lemma {:induction false} DropPunctuationIsFilter(u: Unicode, s: string)
    ensures DropPunctuation(u, s) == Filter(s, c => Admitted(u, c))
    decreases |s|
  {
    if s != [] {
      DropPunctuationIsFilter(u, s[1..]);
    }
  }

  /** No two spaces stand next to each other. */
  predicate NoDoubleSpace(s: string) {
    forall k :: 0 <= k < |s| - 1 ==> !(s[k] == ' ' && s[k + 1] == ' ')
  }

  /** The characters of s that are not whitespace, in order. */
  function Visible(u: Unicode, s: string): string {
    Filter(s, c => !u.isSpace(c))
  }

  /**
   * Step 6: `re.sub(r"\s+", " ", s)`: every maximal whitespace run becomes one ' '
   * (`CollapseSpacesRun`), every other character is kept (`CollapseSpacesKeep`).
   */
  function CollapseSpaces(u: Unicode, s: string): (r: string)
    ensures s == [] <==> r == []
    ensures s != [] && u.isSpace(s[0]) ==> r[0] == ' '
    ensures s != [] && !u.isSpace(s[0]) ==> r[0] == s[0]
    ensures u.isSpace(' ') ==> NoDoubleSpace(r)
    decreases |s|
  {
    if s == [] then []
    else if u.isSpace(s[0]) then
      var rest := TrimStart(u, s);
      assert |rest| < |s|;
      [' '] + CollapseSpaces(u, rest)
    else
      [s[0]] + CollapseSpaces(u, s[1..])
  }

  /** Every character of the collapsed text is the one space or a non-whitespace character of s. */
  lemma {:induction false} CollapseSpacesFrom(u: Unicode, s: string)
    ensures forall k :: 0 <= k < |CollapseSpaces(u, s)| ==>
      CollapseSpaces(u, s)[k] == ' ' || (CollapseSpaces(u, s)[k] in s && !u.isSpace(CollapseSpaces(u, s)[k]))
    decreases |s|
  {
    if s != [] {
      if u.isSpace(s[0]) {
        var rest := TrimStart(u, s);
        TrimStartSuffix(u, s);
        CollapseSpacesFrom(u, rest);
        assert rest == s[|s| - |rest|..];
        assert forall c :: c in rest ==> c in s;
      } else {
        CollapseSpacesFrom(u, s[1..]);
        assert forall c :: c in s[1..] ==> c in s;
      }
    }
  }

  /**
   * A whitespace run followed by text that does not start with whitespace becomes exactly
   * one ' ' in front of the collapsed rest.
   */
  lemma CollapseSpacesRun(u: Unicode, w: string, t: string)
    requires w != [] && forall k :: 0 <= k < |w| ==> u.isSpace(w[k])
    requires t == [] || !u.isSpace(t[0])
    ensures CollapseSpaces(u, w + t) == [' '] + CollapseSpaces(u, t)
  {
    var s := w + t;
    var rest := TrimStart(u, s);
    TrimStartSuffix(u, s);
    assert forall k :: 0 <= k < |w| ==> s[k] == w[k];
    assert t != [] ==> s[|w|] == t[0];
    assert |rest| == |t|;
    assert rest == t;
  }

  /** A character that is not whitespace is kept in front of the collapsed rest. */
  lemma CollapseSpacesKeep(u: Unicode, c: char, t: string)
    requires !u.isSpace(c)
    ensures CollapseSpaces(u, [c] + t) == [c] + CollapseSpaces(u, t)
  {
    assert ([c] + t)[1..] == t;
  }

  /** Python's `_normalize_text`. */
  function Normalize(u: Unicode, text: string): string {
    // NFKD, drop combining marks, lower, strip, drop punctuation, collapse whitespace.
    CollapseSpaces(u, DropPunctuation(u, Strip(u, u.lower(DropCombining(u, u.nfkd(text))))))
  }

  /**
   * A key holds only word characters, '-' and ' '; its only whitespace is ' ', and
   * (when ' ' is whitespace) no two spaces are adjacent.
   */
  lemma NormalizeChars(u: Unicode, text: string)
    ensures forall k :: 0 <= k < |Normalize(u, text)| ==>
      u.isWord(Normalize(u, text)[k]) || Normalize(u, text)[k] == '-' || Normalize(u, text)[k] == ' '
    ensures forall k :: 0 <= k < |Normalize(u, text)| ==> u.isSpace(Normalize(u, text)[k]) ==> Normalize(u, text)[k] == ' '
    ensures u.isSpace(' ') ==> NoDoubleSpace(Normalize(u, text))
  {
    var stripped := Strip(u, u.lower(DropCombining(u, u.nfkd(text))));
    DropPunctuationChars(u, stripped);
    CollapseSpacesFrom(u, DropPunctuation(u, stripped));
  }

  lemma FilterNothingKept(s: string, keep: char -> bool)
    requires forall k :: 0 <= k < |s| ==> !keep(s[k])
    ensures Filter(s, keep) == []
  {
  }

  /** Collapsing whitespace changes no other character: the non-whitespace text is the same, in order. */
  lemma {:induction false} CollapseKeepsVisibleText(u: Unicode, s: string)
    requires u.isSpace(' ')
    ensures Visible(u, CollapseSpaces(u, s)) == Visible(u, s)
    decreases |s|
  {
    if s != [] {
      var r := CollapseSpaces(u, s);
      if u.isSpace(s[0]) {
        var rest := TrimStart(u, s);
        TrimStartSuffix(u, s);
        var dropped := s[..|s| - |rest|];
        assert s == dropped + rest;
        FilterAppend(dropped, rest, c => !u.isSpace(c));
        FilterNothingKept(dropped, c => !u.isSpace(c));
        CollapseKeepsVisibleText(u, rest);
        assert r == [' '] + CollapseSpaces(u, rest);
        FilterAppend([' '], CollapseSpaces(u, rest), c => !u.isSpace(c));
      } else {
        assert r == [s[0]] + CollapseSpaces(u, s[1..]);
        FilterAppend([s[0]], CollapseSpaces(u, s[1..]), c => !u.isSpace(c));
        assert s == [s[0]] + s[1..];
        FilterAppend([s[0]], s[1..], c => !u.isSpace(c));
        CollapseKeepsVisibleText(u, s[1..]);
      }
    }
  }

  // ---------------------------------------------------------------------------
  // Normalization is not idempotent: stripping happens before punctuation removal.

  function AsciiLower(s: string): (r: string)
    ensures |r| == |s|
  {
    if s == [] then []
    else [if 'A' <= s[0] <= 'Z' then (s[0] as int + 32) as char else s[0]] + AsciiLower(s[1..])
  }

  /** A concrete table for ASCII text: no decomposition, no combining marks. */
  function Ascii(): Unicode {
    Unicode(
      s => s,
      c => false,
      AsciiLower,
      c => c == ' ' || c == '\t' || c == '\n' || c == '\r',
      c => ('a' <= c <= 'z') || ('A' <= c <= 'Z') || ('0' <= c <= '9') || c == '_',
      c => ('a' <= c <= 'z') || ('A' <= c <= 'Z') || ('0' <= c <= '9'))
  }

  lemma NormalizeBangSpace()
    ensures Normalize(Ascii(), "! a") == " a"
  {
    assert AsciiLower("! a") == "! a";
    assert Strip(Ascii(), "! a") == "! a";
    assert DropPunctuation(Ascii(), "! a") == " a";
    assert CollapseSpaces(Ascii(), " a") == " a";
  }

  lemma NormalizeSpaceA()
    ensures Normalize(Ascii(), " a") == "a"
  {
    assert AsciiLower(" a") == " a";
    assert Strip(Ascii(), " a") == "a";
  }

  /**
   * "! a" normalizes to " a": the '!' shields the space from the strip and is removed
   * only afterwards. Normalizing " a" again gives "a", so normalizing twice is not
   * normalizing once.
   */
  lemma LeadingSpaceSurvives()
    ensures Normalize(Ascii(), "! a") == " a"
    ensures Normalize(Ascii(), Normalize(Ascii(), "! a")) != Normalize(Ascii(), "! a")
  {
    NormalizeBangSpace();
    NormalizeSpaceA();
  }
}
