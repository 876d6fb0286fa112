/** JavaScript string semantics the service relies on, on both sides of the
    wire: a request property that may be missing, JavaScript truthiness and the
    `x || fallback` idiom, `String.prototype.trim`, `toLowerCase` (over ASCII)
    and `String.prototype.includes`. */
module JsText {

  /** A JSON property as JavaScript sees it: `undefined`/`null` or a string. */
  datatype MaybeString = Missing | Str(value: string)

  /** JavaScript truthiness of a property: a non-empty string. */
  predicate Truthy(x: MaybeString) {
    x.Str? && x.value != ""
  }

  /** `x || fallback`, the defaulting idiom used for every optional column. */
  function Or(x: MaybeString, fallback: string): string {
    if Truthy(x) then x.value else fallback
  }

  /** The characters JavaScript's `trim` and the regular expression class `\s`
      remove: the ECMAScript WhiteSpace and LineTerminator code points. */
  predicate IsWhitespace(c: char) {
    var n := c as int;
    || 9 <= n <= 13                 // tab, line feed, vertical tab, form feed, carriage return
    || n == 0x20 || n == 0xA0 || n == 0x1680
    || 0x2000 <= n <= 0x200A
    || n == 0x2028 || n == 0x2029 || n == 0x202F || n == 0x205F
    || n == 0x3000 || n == 0xFEFF
  }

  /** Number of whitespace characters at the front of `s`. */
  function LeadingSpaces(s: string): (n: nat)
    ensures n <= |s|
  {
    if s != [] && IsWhitespace(s[0]) then 1 + LeadingSpaces(s[1..]) else 0
  }

  /** The count covers the longest all-whitespace prefix. */
  lemma {:induction false} LeadingSpacesSpec(s: string)
    ensures forall i :: 0 <= i < LeadingSpaces(s) ==> IsWhitespace(s[i])
    ensures LeadingSpaces(s) == |s| || !IsWhitespace(s[LeadingSpaces(s)])
  {
    if s != [] && IsWhitespace(s[0]) {
      LeadingSpacesSpec(s[1..]);
      forall i | 0 < i < LeadingSpaces(s) ensures IsWhitespace(s[i]) {
        assert s[i] == s[1..][i - 1];
      }
    }
  }

  /** Number of whitespace characters at the back of `s`. */
  function TrailingSpaces(s: string): (n: nat)
    ensures n <= |s|
  {
    if s != [] && IsWhitespace(s[|s| - 1]) then 1 + TrailingSpaces(s[..|s| - 1]) else 0
  }

  /** The count covers the longest all-whitespace suffix. */
  lemma {:induction false} TrailingSpacesSpec(s: string)
    ensures forall i :: |s| - TrailingSpaces(s) <= i < |s| ==> IsWhitespace(s[i])
    ensures TrailingSpaces(s) == |s| || !IsWhitespace(s[|s| - 1 - TrailingSpaces(s)])
  {
    if s != [] && IsWhitespace(s[|s| - 1]) {
      var u := s[..|s| - 1];
      TrailingSpacesSpec(u);
      forall i | |s| - TrailingSpaces(s) <= i < |s| - 1 ensures IsWhitespace(s[i]) {
        assert s[i] == u[i];
      }
      if TrailingSpaces(s) != |s| {
        assert s[|s| - 1 - TrailingSpaces(s)] == u[|u| - 1 - TrailingSpaces(u)];
      }
    }
  }

  /** Whitespace removed at both ends, as `String.prototype.trim` does. */
  function Trim(s: string): string {
    var t := s[LeadingSpaces(s)..];
    t[..|t| - TrailingSpaces(t)]
  }

  /** Neither end of `s` is whitespace. */
  predicate Unpadded(s: string) {
    s == [] || (!IsWhitespace(s[0]) && !IsWhitespace(s[|s| - 1]))
  }

  /** Neither end of a trimmed string is whitespace. */
  lemma TrimEnds(s: string)
    ensures Unpadded(Trim(s))
  {
    var t := s[LeadingSpaces(s)..];
    LeadingSpacesSpec(s);
    TrailingSpacesSpec(t);
    if Trim(s) != [] {
      assert Trim(s)[0] == t[0] == s[LeadingSpaces(s)];
    }
  }

  /** `r` is `s` with `lead` whitespace characters cut at the front and only
      whitespace cut at the back. */
  ghost predicate IsTrimOf(s: string, r: string, lead: nat) {
    && lead + |r| <= |s|
    && r == s[lead..lead + |r|]
    && (forall i :: 0 <= i < lead ==> IsWhitespace(s[i]))
    && (forall i :: lead + |r| <= i < |s| ==> IsWhitespace(s[i]))
  }

  /** The trim is the slice between the leading and the trailing whitespace. */
  lemma TrimIsSlice(s: string)
    ensures var t := s[LeadingSpaces(s)..];
      Trim(s) == s[LeadingSpaces(s)..LeadingSpaces(s) + |t| - TrailingSpaces(t)]
  {
    var lead := LeadingSpaces(s);
    var t := s[lead..];
    var m := |t| - TrailingSpaces(t);
    assert Trim(s) == t[..m] == s[lead..lead + m];
  }

  /** Everything after the trim is whitespace. */
  lemma TrimTailBlank(s: string)
    ensures var lead := LeadingSpaces(s); var t := s[lead..];
      forall i :: lead + |t| - TrailingSpaces(t) <= i < |s| ==> IsWhitespace(s[i])
  {
    var lead := LeadingSpaces(s);
    var t := s[lead..];
    TrailingSpacesSpec(t);
    forall i | lead + |t| - TrailingSpaces(t) <= i < |s| ensures IsWhitespace(s[i]) {
      assert s[i] == t[i - lead];
    }
  }

  /** Trim cuts only whitespace, and only at the ends. */
  lemma TrimCutsWhitespace(s: string)
    ensures IsTrimOf(s, Trim(s), LeadingSpaces(s))
  {
    LeadingSpacesSpec(s);
    TrimIsSlice(s);
    TrimTailBlank(s);
  }

  /** A string with no whitespace at either end is its own trim. */
  lemma TrimOfTrimmed(s: string)
    requires Unpadded(s)
    ensures Trim(s) == s
  {
    assert LeadingSpaces(s) == 0;
    assert s[0..] == s;
    assert TrailingSpaces(s) == 0;
  }

  /** Trimming twice is trimming once. */
  lemma TrimIdempotent(s: string)
    ensures Trim(Trim(s)) == Trim(s)
  {
    TrimEnds(s);
    TrimOfTrimmed(Trim(s));
  }

  /** Trim yields the empty string exactly when the input is all whitespace. */
  lemma TrimEmptyIffBlank(s: string)
    ensures Trim(s) == [] <==> forall i :: 0 <= i < |s| ==> IsWhitespace(s[i])
  {
    var lead := LeadingSpaces(s);
    TrimCutsWhitespace(s);
    TrimEnds(s);
    if Trim(s) != [] {
      assert s[lead] == Trim(s)[0];
    }
  }

  /** ASCII case folding of one character, as `toLowerCase` does on ASCII. */
  function LowerChar(c: char): char {
    if 'A' <= c <= 'Z' then (c as int + 32) as char else c
  }

  /** `toLowerCase`, over the ASCII letters. */
  function ToLower(s: string): (r: string)
    ensures |r| == |s|
    ensures forall i :: 0 <= i < |s| ==> r[i] == LowerChar(s[i])
  {
    if s == [] then [] else [LowerChar(s[0])] + ToLower(s[1..])
  }

  /** Lower-casing leaves no upper-case ASCII letter and is idempotent. */
  lemma {:induction false} ToLowerIdempotent(s: string)
    ensures forall i :: 0 <= i < |s| ==> !('A' <= ToLower(s)[i] <= 'Z')
    ensures ToLower(ToLower(s)) == ToLower(s)
  {
    var r := ToLower(s);
    forall i | 0 <= i < |r|
      ensures ToLower(r)[i] == r[i]
    {
      assert r[i] == LowerChar(s[i]);
    }
  }

  /** `needle` occurs in `hay` at position `i`. */
  ghost predicate OccursAt(hay: string, needle: string, i: int) {
    0 <= i && i + |needle| <= |hay| && hay[i..i + |needle|] == needle
  }

  /** An occurrence in the tail is an occurrence one position further on. */
  lemma OccursInTail(hay: string, needle: string, j: int)
    requires hay != [] && 0 <= j
    ensures OccursAt(hay[1..], needle, j) <==> OccursAt(hay, needle, j + 1)
  {
    if j + |needle| <= |hay| - 1 {
      var u := hay[1..][j..j + |needle|];
      var w := hay[j + 1..j + 1 + |needle|];
      forall k | 0 <= k < |needle| ensures u[k] == w[k] {
        assert u[k] == hay[1..][j + k] == hay[j + 1 + k];
      }
      assert u == w;
    }
  }

  /** `hay.includes(needle)`: a left-to-right scan for a matching window. */
  function Includes(hay: string, needle: string): (b: bool)
    ensures b <==> exists i :: OccursAt(hay, needle, i)
    decreases |hay|
  {
    if |needle| <= |hay| && hay[..|needle|] == needle then
      assert OccursAt(hay, needle, 0);
      true
    else if |needle| >= |hay| then
      assert !OccursAt(hay, needle, 0);
      false
    else
      var b := Includes(hay[1..], needle);
      assert b ==> exists i :: OccursAt(hay, needle, i) by {
        if b {
          var j :| OccursAt(hay[1..], needle, j);
          OccursInTail(hay, needle, j);
        }
      }
      assert (exists i :: OccursAt(hay, needle, i)) ==> b by {
        if exists i :: OccursAt(hay, needle, i) {
          var i :| OccursAt(hay, needle, i);
          assert i != 0;
          OccursInTail(hay, needle, i - 1);
        }
      }
      b
  }
}
