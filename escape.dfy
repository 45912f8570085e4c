/**
 * HTML escaping as the chat client does it before inserting any message text
 * into the page: one left-to-right pass that replaces each of the five markup
 * characters `& < > " '` by its entity and copies every other character.
 *
 * `Unescape` is not part of the client; it is the decoder that shows the
 * escaping loses nothing (and therefore that two different messages never
 * escape to the same markup).
 */
module HtmlEscape {

  /** The characters the client rewrites. */
  predicate IsMarkupChar(c: char)
  {
    c == '&' || c == '<' || c == '>' || c == '"' || c == '\''
  }

  /** No character of `s` is one the client rewrites. */
  predicate IsPlain(s: string)
  {
    forall i :: 0 <= i < |s| ==> !IsMarkupChar(s[i])
  }

  /** `t` begins with one of the five entities the client emits. */
  predicate StartsWithEntity(t: string)
  {
    "&amp;" <= t || "&lt;" <= t || "&gt;" <= t || "&quot;" <= t || "&#39;" <= t
  }

  /** The lookup table of the replacement: the entity for a markup character, the character itself otherwise. */
  function EscapeChar(c: char): (r: string)
    ensures IsMarkupChar(c) ==> StartsWithEntity(r) && |r| >= 4
    ensures IsMarkupChar(c) ==> forall i :: 0 < i < |r| ==> !IsMarkupChar(r[i])
    ensures !IsMarkupChar(c) <==> r == [c]
  {
    match c
    case '&' => "&amp;"
    case '<' => "&lt;"
    case '>' => "&gt;"
    case '"' => "&quot;"
    case '\'' => "&#39;"
    case _ => [c]
  }

  /** `escapeHtml`: every character replaced by its `EscapeChar`, in order. */
  function EscapeHtml(s: string): (r: string)
    ensures |r| >= |s|
    ensures forall i :: 0 <= i < |r| ==> r[i] != '<' && r[i] != '>' && r[i] != '"' && r[i] != '\''
    ensures IsPlain(s) ==> r == s
  {
    if s == [] then [] else EscapeChar(s[0]) + EscapeHtml(s[1..])
  }

  /** Decodes the five entities, scanning left to right; any other character is copied. */
  function Unescape(t: string): (s: string)
    ensures |s| <= |t|
  {
    if t == [] then []
    else if "&amp;" <= t then ['&'] + Unescape(t[5..])
    else if "&lt;" <= t then ['<'] + Unescape(t[4..])
    else if "&gt;" <= t then ['>'] + Unescape(t[4..])
    else if "&quot;" <= t then ['"'] + Unescape(t[6..])
    else if "&#39;" <= t then ['\''] + Unescape(t[5..])
    else [t[0]] + Unescape(t[1..])
  }

  /** Escaping distributes over concatenation: it is a character-by-character substitution. */
  lemma {:induction false} EscapeConcat(a: string, b: string)
    ensures EscapeHtml(a + b) == EscapeHtml(a) + EscapeHtml(b)
  {
    if a == [] {
      assert a + b == b;
    } else {
      assert (a + b)[1..] == a[1..] + b;
      EscapeConcat(a[1..], b);
    }
  }

  /** A plain character passes through unchanged at its own place among its neighbours. */
  lemma PlainCharPassesThrough(a: string, c: char, b: string)
    requires !IsMarkupChar(c)
    ensures EscapeHtml(a + [c] + b) == EscapeHtml(a) + [c] + EscapeHtml(b)
  {
    EscapeConcat(a + [c], b);
    EscapeConcat(a, [c]);
    assert [c][1..] == [];
  }

  /** The output is exactly as long as the input if and only if the input has no markup character. */
  lemma {:induction false} EscapeLengthExact(s: string)
    ensures |EscapeHtml(s)| == |s| <==> IsPlain(s)
  {
    if s != [] {
      EscapeLengthExact(s[1..]);
      assert IsPlain(s) <==> !IsMarkupChar(s[0]) && IsPlain(s[1..]) by {
        if IsPlain(s[1..]) && !IsMarkupChar(s[0]) {
          forall i | 0 <= i < |s| ensures !IsMarkupChar(s[i]) {
            if i > 0 { assert s[i] == s[1..][i - 1]; }
          }
        }
        if IsPlain(s) {
          forall i | 0 <= i < |s[1..]| ensures !IsMarkupChar(s[1..][i]) {
            assert s[1..][i] == s[i + 1];
          }
        }
      }
    }
  }

  /** Every `&` in the output is the first character of one of the five entities. */
  lemma {:induction false} AmpersandsBeginEntities(s: string)
    ensures forall i :: 0 <= i < |EscapeHtml(s)| && EscapeHtml(s)[i] == '&' ==> StartsWithEntity(EscapeHtml(s)[i..])
  {
    var r := EscapeHtml(s);
    if s != [] {
      var head, tail := EscapeChar(s[0]), EscapeHtml(s[1..]);
      assert r == head + tail;
      AmpersandsBeginEntities(s[1..]);
      forall i | 0 <= i < |r| && r[i] == '&' ensures StartsWithEntity(r[i..]) {
        if i < |head| {
          assert r[i] == head[i];
          assert i == 0;
          assert IsMarkupChar(s[0]);
          assert head <= r;
        } else {
          assert r[i..] == tail[i - |head|..];
          assert tail[i - |head|] == '&';
        }
      }
    }
  }

  /** Decoding an escaped character followed by anything yields the character, then the decoding of the rest. */
  lemma UnescapeEscapeChar(c: char, t: string)
    ensures Unescape(EscapeChar(c) + t) == [c] + Unescape(t)
  {
    var e := EscapeChar(c);
    var u := e + t;
    assert u[..|e|] == e && u[|e|..] == t;
    if !IsMarkupChar(c) {
      assert u[0] == c && u[1..] == t;
      assert !("&amp;" <= u) && !("&lt;" <= u) && !("&gt;" <= u) && !("&quot;" <= u) && !("&#39;" <= u);
    } else if c == '&' {
      assert "&amp;" <= u;
    } else if c == '<' {
      assert u[1] == 'l' && "&lt;" <= u;
    } else if c == '>' {
      assert u[1] == 'g' && "&gt;" <= u;
    } else if c == '"' {
      assert u[1] == 'q' && "&quot;" <= u;
    } else {
      assert u[1] == '#' && "&#39;" <= u;
    }
  }

  /** Decoding undoes escaping exactly. */
  lemma {:induction false} UnescapeEscape(s: string)
    ensures Unescape(EscapeHtml(s)) == s
  {
    if s != [] {
      UnescapeEscapeChar(s[0], EscapeHtml(s[1..]));
      UnescapeEscape(s[1..]);
    }
  }

  /** Two different messages never escape to the same markup. */
  lemma EscapeInjective(a: string, b: string)
    ensures EscapeHtml(a) == EscapeHtml(b) <==> a == b
  {
    UnescapeEscape(a);
    UnescapeEscape(b);
  }

}
