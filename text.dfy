/**
 * The few pieces of std::string behaviour the inspector relies on:
 * `find` (first occurrence of a substring at or after a position) and
 * the `isspace`/`remove_if` idiom used to clean up the mimetype entry.
 */
module Text {
  import opened Wrappers

  /** `needle` occurs in `s` starting at index `i`. */
  predicate OccursAt(s: string, needle: string, i: int)
  {
    0 <= i && i + |needle| <= |s| && s[i..i + |needle|] == needle
  }

  /**
   * std::string::find(needle, from): the smallest index at or after `from`
   * where `needle` occurs, or None for std::string::npos.
   */
  function Find(s: string, needle: string, from: nat): (r: Option<nat>)
    decreases |s| - from
    ensures r.Some? ==> from <= r.value && OccursAt(s, needle, r.value)
    ensures forall i :: from <= i && (r.None? || i < r.value) ==> !OccursAt(s, needle, i)
  {
    if from + |needle| > |s| then None
    else if s[from..from + |needle|] == needle then Some(from)
    else Find(s, needle, from + 1)
  }

  /** Find returns exactly the first occurrence at or after `from`. */
  lemma FindFirst(s: string, needle: string, from: nat, p: nat)
    requires from <= p && OccursAt(s, needle, p)
    requires forall i :: from <= i < p ==> !OccursAt(s, needle, i)
    ensures Find(s, needle, from) == Some(p)
  {
  }

  /** `s.find(needle) != std::string::npos`. */
  predicate Contains(s: string, needle: string)
    ensures Contains(s, needle) ==> |needle| <= |s|
  {
    Find(s, needle, 0).Some?
  }

  /** Contains holds exactly when the needle occurs somewhere. */
  lemma ContainsIff(s: string, needle: string)
    ensures Contains(s, needle) <==> exists i :: OccursAt(s, needle, i)
  {
    if exists i :: OccursAt(s, needle, i) {
      var i :| OccursAt(s, needle, i);
      assert i >= 0;
    }
  }

  /**
   * `s.find(p) == 0`, the idiom the source uses for "starts with", is exactly
   * the prefix relation.
   */
  lemma FindAtZeroIsPrefix(s: string, p: string)
    ensures Find(s, p, 0) == Some(0) <==> p <= s
  {
    if p <= s {
      assert s[0..|p|] == p;
    }
  }

  /** The characters for which C's `isspace` holds in the "C" locale. */
  predicate IsSpace(c: char)
    ensures IsSpace(c) <==> ('\t' <= c <= '\r' || c == ' ')
  {
    c == ' ' || c == '\t' || c == '\n' || c == '\U{0B}' || c == '\U{0C}' || c == '\r'
  }

  /**
   * `s.erase(std::remove_if(s.begin(), s.end(), ::isspace), s.end())`:
   * every whitespace character is dropped, the others keep their order.
   */
  function StripSpaces(s: string): (r: string)
    ensures |r| <= |s|
    ensures forall i :: 0 <= i < |r| ==> !IsSpace(r[i])
    ensures forall i :: 0 <= i < |r| ==> r[i] in s
  {
    if s == [] then []
    else (if IsSpace(s[0]) then [] else [s[0]]) + StripSpaces(s[1..])
  }

  /** Stripping works piece by piece, so the surviving characters keep their order. */
  lemma {:induction false} StripSpacesAppend(a: string, b: string)
    ensures StripSpaces(a + b) == StripSpaces(a) + StripSpaces(b)
  {
    if a == [] {
      assert a + b == b;
    } else {
      assert (a + b)[1..] == a[1..] + b;
      StripSpacesAppend(a[1..], b);
    }
  }

  /** A string without whitespace is left as it is. */
  lemma {:induction false} StripSpacesNoSpaces(s: string)
    requires forall i :: 0 <= i < |s| ==> !IsSpace(s[i])
    ensures StripSpaces(s) == s
  {
    if s != [] {
      StripSpacesNoSpaces(s[1..]);
    }
  }

  /** A string made only of whitespace disappears. */
  lemma {:induction false} StripSpacesAllSpaces(s: string)
    requires forall i :: 0 <= i < |s| ==> IsSpace(s[i])
    ensures StripSpaces(s) == []
  {
    if s != [] {
      StripSpacesAllSpaces(s[1..]);
    }
  }

  /** Stripping twice is the same as stripping once. */
  lemma StripSpacesIdempotent(s: string)
    ensures StripSpaces(StripSpaces(s)) == StripSpaces(s)
  {
    StripSpacesNoSpaces(StripSpaces(s));
  }
}
