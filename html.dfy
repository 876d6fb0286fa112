/** The client's `escapeHtml` helper: every `&`, `<`, `>`, `'` and `"` of a
    cell value becomes an HTML entity before the value is spliced into the
    table's markup; a falsy value renders as the empty string. */
module Html {
  import opened JsText

  /** The five characters the helper's character class `[&<>'"]` matches. */
  predicate IsSpecial(c: char) {
    c == '&' || c == '<' || c == '>' || c == '\'' || c == '"'
  }

  /** The characters that could open a tag or close an attribute value. */
  predicate IsMarkup(c: char) {
    c == '<' || c == '>' || c == '\'' || c == '"'
  }

  /** The replacement table of the helper. */
  function Entity(c: char): (e: string)
    requires IsSpecial(c)
  {
    match c
    case '&' => "&amp;"
    case '<' => "&lt;"
    case '>' => "&gt;"
    case '\'' => "&#39;"
    case '"' => "&quot;"
  }

  /** One character after replacement. */
  function EscapeChar(c: char): string {
    if IsSpecial(c) then Entity(c) else [c]
  }

  /** `str.replace(/[&<>'"]/g, ...)`: each character replaced in place, left to right. */
  function Escape(s: string): string {
    if s == [] then [] else EscapeChar(s[0]) + Escape(s[1..])
  }

  /** `escapeHtml(str)`: '' for a falsy value, the escaped string otherwise. */
  function EscapeHtml(x: MaybeString): string {
    if !Truthy(x) then "" else Escape(x.value)
  }

  /** `p` occurs in `s` at position `i`. */
  predicate PrefixAt(s: string, i: nat, p: string) {
    i + |p| <= |s| && s[i..i + |p|] == p
  }

  /** One of the five entities starts at position `i` of `s`. */
  predicate EntityAt(s: string, i: nat) {
    || PrefixAt(s, i, "&amp;") || PrefixAt(s, i, "&lt;") || PrefixAt(s, i, "&gt;")
    || PrefixAt(s, i, "&#39;") || PrefixAt(s, i, "&quot;")
  }

  /** The reference decoder: each of the five entities back to its character,
      every other character, a lone `&` included, copied. */
  function Unescape(s: string): string
    decreases |s|
  {
    if s == [] then []
    else if PrefixAt(s, 0, "&amp;") then "&" + Unescape(s[5..])
    else if PrefixAt(s, 0, "&lt;") then "<" + Unescape(s[4..])
    else if PrefixAt(s, 0, "&gt;") then ">" + Unescape(s[4..])
    else if PrefixAt(s, 0, "&#39;") then "'" + Unescape(s[5..])
    else if PrefixAt(s, 0, "&quot;") then "\"" + Unescape(s[6..])
    else [s[0]] + Unescape(s[1..])
  }

  /** A mismatch at one position rules out an occurrence. */
  lemma Mismatch(s: string, p: string, k: nat)
    requires k < |p| && k < |s| && s[k] != p[k]
    ensures !PrefixAt(s, 0, p)
  {
  }

  /** Decoding an entity at the front gives its character back, whatever follows. */
  lemma UnescapeEntity(c: char, rest: string)
    requires IsSpecial(c)
    ensures Unescape(Entity(c) + rest) == [c] + Unescape(rest)
  {
    var e := Entity(c);
    var s := e + rest;
    assert s[..|e|] == e && s[|e|..] == rest;
    assert PrefixAt(s, 0, e);
    if c != '&' {
      Mismatch(s, "&amp;", 1);
    }
    if c == '\'' || c == '"' {
      Mismatch(s, "&lt;", 1);
      Mismatch(s, "&gt;", 1);
    }
    if c == '"' {
      Mismatch(s, "&#39;", 1);
    }
  }

  /** Decoding the replacement of one character gives that character back,
      whatever follows it. */
  lemma UnescapeOne(c: char, rest: string)
    ensures Unescape(EscapeChar(c) + rest) == [c] + Unescape(rest)
  {
    if IsSpecial(c) {
      UnescapeEntity(c, rest);
    } else {
      var s := EscapeChar(c) + rest;
      assert s[0] == c && s[1..] == rest;
      Mismatch(s, "&amp;", 0);
      Mismatch(s, "&lt;", 0);
      Mismatch(s, "&gt;", 0);
      Mismatch(s, "&#39;", 0);
      Mismatch(s, "&quot;", 0);
    }
  }

  /** The decoder undoes the helper: escaping loses nothing. */
  lemma {:induction false} UnescapeEscape(s: string)
    ensures Unescape(Escape(s)) == s
  {
    if s != [] {
      UnescapeOne(s[0], Escape(s[1..]));
      UnescapeEscape(s[1..]);
      assert s == [s[0]] + s[1..];
    }
  }

  /** Distinct values render as distinct markup. */
  lemma EscapeInjective(a: string, b: string)
    requires Escape(a) == Escape(b)
    ensures a == b
  {
    UnescapeEscape(a);
    UnescapeEscape(b);
  }

  /** On a value with none of the five characters the helper changes nothing. */
  lemma {:induction false} EscapeIdentity(s: string)
    requires forall i :: 0 <= i < |s| ==> !IsSpecial(s[i])
    ensures Escape(s) == s
  {
    if s != [] {
      EscapeIdentity(s[1..]);
      assert s == [s[0]] + s[1..];
    }
  }

  /** The replacement of one character carries no markup character, and its
      only `&` opens an entity. */
  lemma EscapeCharSafe(c: char)
    ensures forall i :: 0 <= i < |EscapeChar(c)| ==> !IsMarkup(EscapeChar(c)[i])
    ensures forall i :: 0 <= i < |EscapeChar(c)| && EscapeChar(c)[i] == '&' ==> i == 0 && IsSpecial(c)
    ensures IsSpecial(c) ==> EntityAt(EscapeChar(c), 0)
  {
  }

  /** An entity found in a suffix is still there once a prefix is put in front. */
  lemma EntityAtShift(h: string, t: string, j: nat)
    requires EntityAt(t, j)
    ensures EntityAt(h + t, |h| + j)
  {
    var s := h + t;
    forall p | p in ["&amp;", "&lt;", "&gt;", "&#39;", "&quot;"] && PrefixAt(t, j, p)
      ensures PrefixAt(s, |h| + j, p)
    {
      assert s[|h| + j..|h| + j + |p|] == t[j..j + |p|];
    }
  }

  /** The escaped string contains no `<`, `>`, `'` or `"`, and every `&` in it
      starts one of the five entities: it is safe as element text and inside
      a quoted attribute. */
  lemma {:induction false} EscapeSafe(s: string)
    ensures forall i :: 0 <= i < |Escape(s)| ==> !IsMarkup(Escape(s)[i])
    ensures forall i :: 0 <= i < |Escape(s)| && Escape(s)[i] == '&' ==> EntityAt(Escape(s), i)
  {
    if s != [] {
      var h := EscapeChar(s[0]);
      var t := Escape(s[1..]);
      EscapeSafe(s[1..]);
      EscapeCharSafe(s[0]);
      var r := h + t;
      assert Escape(s) == r;
      forall i | 0 <= i < |r|
        ensures !IsMarkup(r[i])
        ensures r[i] == '&' ==> EntityAt(r, i)
      {
        if i < |h| {
          assert r[i] == h[i];
          if r[i] == '&' {
            assert i == 0 && IsSpecial(s[0]);
            assert r[..|h|] == h;
          }
        } else {
          assert r[i] == t[i - |h|];
          if r[i] == '&' {
            EntityAtShift(h, t, i - |h|);
          }
        }
      }
    }
  }

  /** The helper as the table's cells use it: a falsy value renders as '', and
      any other value is recovered by decoding. */
  lemma EscapeHtmlSpec(x: MaybeString)
    ensures !Truthy(x) ==> EscapeHtml(x) == ""
    ensures Truthy(x) ==> Unescape(EscapeHtml(x)) == x.value
    ensures forall i :: 0 <= i < |EscapeHtml(x)| ==> !IsMarkup(EscapeHtml(x)[i])
  {
    if Truthy(x) {
      UnescapeEscape(x.value);
      EscapeSafe(x.value);
    }
  }
}
