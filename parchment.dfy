/**
 * The element id of a monster's info panel, derived from its button's
 * name inside `Parchment.pagesFor` (`src/parchment.ts`). The page is then
 * queried for `#<id>`, so spaces become `_` and dots are escaped for the
 * CSS selector.
 */
module Parchment {
  import opened Wrappers

  const MissingName: string := "Could not find name for button"

  /** `.replace(/ /g, "_")`, character by character. */
  function ReplaceSpaces(s: string): (r: string)
    ensures |r| == |s|
    ensures forall i :: 0 <= i < |s| ==> r[i] == (if s[i] == ' ' then '_' else s[i])
  {
    if s == [] then [] else [if s[0] == ' ' then '_' else s[0]] + ReplaceSpaces(s[1..])
  }

  /** The escaped form of one character. */
  function EscapeChar(c: char): string {
    if c == '.' then ['\\', '.'] else [c]
  }

  /** `.replace(/\./g, "\\.")`: each dot becomes a backslash and a dot. */
  function EscapeDots(s: string): (r: string)
    ensures r != [] ==> r[0] != '.'
  {
    if s == [] then [] else EscapeChar(s[0]) + EscapeDots(s[1..])
  }

  /** Escaping adds one character per dot. */
  lemma {:induction false} EscapeDotsLength(s: string)
    ensures |EscapeDots(s)| == |s| + multiset(s)['.']
  {
    if s != [] {
      EscapeDotsLength(s[1..]);
      assert s == [s[0]] + s[1..];
    }
  }

  /** Reads an escaped id back: a backslash followed by a dot is a dot. */
  function Unescape(s: string): string
    decreases |s|
  {
    if |s| >= 2 && s[0] == '\\' && s[1] == '.' then ['.'] + Unescape(s[2..])
    else if s == [] then []
    else [s[0]] + Unescape(s[1..])
  }

  /**
   * The id of a button: an absent or empty name is refused before any id
   * is derived; otherwise spaces are replaced, then dots escaped.
   */
  function ButtonId(name: Option<string>): (r: Result<string, string>)
    ensures r.Failure? <==> name.None? || name.value == []
    ensures r.Failure? ==> r.error == MissingName
  {
    if name.None? || name.value == [] then Failure(MissingName)
    else Success(EscapeDots(ReplaceSpaces(name.value)))
  }

  /** Unescaping undoes escaping, so escaping loses nothing and keeps the order. */
  lemma {:induction false} UnescapeEscapeDots(s: string)
    ensures Unescape(EscapeDots(s)) == s
  {
    if s != [] {
      var rest := EscapeDots(s[1..]);
      UnescapeEscapeDots(s[1..]);
      if s[0] == '.' {
        assert EscapeDots(s) == ['\\', '.'] + rest;
        assert (['\\', '.'] + rest)[2..] == rest;
      } else {
        assert EscapeDots(s) == [s[0]] + rest;
        assert ([s[0]] + rest)[1..] == rest;
      }
    }
  }

  /** Escaping adds only backslashes: every other character of the result comes from the input. */
  lemma {:induction false} EscapeDotsChars(s: string, c: char)
    requires c in EscapeDots(s) && c != '\\'
    ensures c in s
  {
    if s != [] {
      if c !in EscapeChar(s[0]) {
        EscapeDotsChars(s[1..], c);
      }
    }
  }

  /** In an escaped string every dot directly follows a backslash. */
  lemma {:induction false} DotsEscaped(s: string, k: int)
    requires 0 <= k < |EscapeDots(s)| && EscapeDots(s)[k] == '.'
    ensures k >= 1 && EscapeDots(s)[k - 1] == '\\'
  {
    if s != [] {
      var head := EscapeChar(s[0]);
      assert EscapeDots(s) == head + EscapeDots(s[1..]);
      if k >= |head| {
        DotsEscaped(s[1..], k - |head|);
      }
    }
  }

  /** Replacing spaces keeps the number of dots. */
  lemma {:induction false} ReplaceSpacesKeepsDots(s: string)
    ensures multiset(ReplaceSpaces(s))['.'] == multiset(s)['.']
  {
    if s != [] {
      ReplaceSpacesKeepsDots(s[1..]);
      assert s == [s[0]] + s[1..];
      assert ReplaceSpaces(s) == [ReplaceSpaces(s)[0]] + ReplaceSpaces(s[1..]);
    }
  }

  /** Neither replacement introduces the other's target, so their order does not matter. */
  lemma {:induction false} ReplacementsCommute(s: string)
    ensures EscapeDots(ReplaceSpaces(s)) == ReplaceSpaces(EscapeDots(s))
  {
    if s != [] {
      var c, rest := s[0], s[1..];
      var c' := if c == ' ' then '_' else c;
      ReplacementsCommute(rest);
      assert ReplaceSpaces(s) == [c'] + ReplaceSpaces(rest);
      assert ([c'] + ReplaceSpaces(rest))[1..] == ReplaceSpaces(rest);
      assert EscapeDots(ReplaceSpaces(s)) == EscapeChar(c') + EscapeDots(ReplaceSpaces(rest));
      ReplaceSpacesConcat(EscapeChar(c), EscapeDots(rest));
      assert ReplaceSpaces(EscapeChar(c)) == EscapeChar(c');
    }
  }

  lemma {:induction false} ReplaceSpacesConcat(a: string, b: string)
    ensures ReplaceSpaces(a + b) == ReplaceSpaces(a) + ReplaceSpaces(b)
  {
    assert |ReplaceSpaces(a + b)| == |ReplaceSpaces(a) + ReplaceSpaces(b)|;
    forall i | 0 <= i < |a + b|
      ensures ReplaceSpaces(a + b)[i] == (ReplaceSpaces(a) + ReplaceSpaces(b))[i]
    {
      if i >= |a| {
        assert (a + b)[i] == b[i - |a|];
      }
    }
  }

  /**
   * What the derived id is: free of spaces, with every dot escaped, as long
   * as the name plus one character per dot, and reading back, with the
   * escapes undone, as the name with its spaces replaced.
   */
  lemma ButtonIdProperties(name: string)
    requires name != []
    ensures var id := ButtonId(Some(name));
      && id.Success?
      && ' ' !in id.value
      && (forall k :: 0 <= k < |id.value| && id.value[k] == '.' ==> k >= 1 && id.value[k - 1] == '\\')
      && |id.value| == |name| + multiset(name)['.']
      && Unescape(id.value) == ReplaceSpaces(name)
  {
    var spaced := ReplaceSpaces(name);
    var id := EscapeDots(spaced);
    if ' ' in id {
      EscapeDotsChars(spaced, ' ');
      assert false;
    }
    forall k | 0 <= k < |id| && id[k] == '.' ensures k >= 1 && id[k - 1] == '\\' {
      DotsEscaped(spaced, k);
    }
    ReplaceSpacesKeepsDots(name);
    EscapeDotsLength(spaced);
    UnescapeEscapeDots(spaced);
  }
}
