/** `escapeHtml` of the admin viewer (admin-app/app.js): the five characters
    HTML treats specially become character references, everything else is
    copied. */
module HtmlEscape {

  /** The characters `escapeHtml` replaces. */
  predicate IsSpecial(c: char) {
    c == '&' || c == '<' || c == '>' || c == '"' || c == '\''
  }

  /** The replacement text of one character, as in the lookup table of `escapeHtml`. */
  function Reference(c: char): string {
    if c == '&' then "&amp;"
    else if c == '<' then "&lt;"
    else if c == '>' then "&gt;"
    else if c == '"' then "&quot;"
    else if c == '\'' then "&#039;"
    else [c]
  }

  /** One of the five references begins at position `i` of `s`. */
  predicate ReferenceAt(s: string, i: nat)
    requires i <= |s|
  {
    var t := s[i..];
    "&amp;" <= t || "&lt;" <= t || "&gt;" <= t || "&quot;" <= t || "&#039;" <= t
  }

  /** `text.replace(/[&<>"']/g, m => map[m])`. The output holds none of
      `<`, `>`, `"`, `'`, and every `&` in it begins a reference. */
  function Escape(s: string): (r: string)
    ensures |r| >= |s|
    ensures forall i :: 0 <= i < |r| ==> r[i] != '<' && r[i] != '>' && r[i] != '"' && r[i] != '\''
    ensures forall i :: 0 <= i < |r| && r[i] == '&' ==> ReferenceAt(r, i)
  {
    if |s| == 0 then ""
    else
      var head := Reference(s[0]);
      var rest := Escape(s[1..]);
      ReferenceAtConcat(head, rest);
      head + rest
  }

  /** References found in `rest` are still there once `head` (a single
      replacement) is put in front of it, and `head` itself is well formed. */
  lemma ReferenceAtConcat(head: string, rest: string)
    requires exists c :: head == Reference(c)
    requires forall i :: 0 <= i < |rest| && rest[i] == '&' ==> ReferenceAt(rest, i)
    ensures forall i :: 0 <= i < |head + rest| && (head + rest)[i] == '&' ==> ReferenceAt(head + rest, i)
  {
    var c :| head == Reference(c);
    var r := head + rest;
    forall i | 0 <= i < |r| && r[i] == '&'
      ensures ReferenceAt(r, i)
    {
      if i < |head| {
        assert r[i] == head[i];
        assert i == 0;
        assert head <= r[i..];
      } else {
        assert r[i..] == rest[i - |head|..];
        assert rest[i - |head|] == '&';
      }
    }
  }

  /** Reverses `Escape`: each of the five references becomes its character
      again, every other character is copied. */
  function Unescape(s: string): string
  {
    if |s| == 0 then ""
    else if "&amp;" <= s then "&" + Unescape(s[5..])
    else if "&lt;" <= s then "<" + Unescape(s[4..])
    else if "&gt;" <= s then ">" + Unescape(s[4..])
    else if "&quot;" <= s then "\"" + Unescape(s[6..])
    else if "&#039;" <= s then "'" + Unescape(s[6..])
    else [s[0]] + Unescape(s[1..])
  }

  /** Unescaping the escaped text gives the text back: the browser shows
      exactly the characters of the message, none of them as markup. */
  lemma {:induction false} UnescapeEscape(s: string)
    ensures Unescape(Escape(s)) == s
  {
    if |s| > 0 {
      var rest := Escape(s[1..]);
      assert Escape(s) == Reference(s[0]) + rest;
      UnescapeReference(s[0], rest);
      UnescapeEscape(s[1..]);
      assert s == [s[0]] + s[1..];
    }
  }

  lemma UnescapeReference(c: char, rest: string)
    ensures Unescape(Reference(c) + rest) == [c] + Unescape(rest)
  {
    if c == '&' {
      UnescapeAmp(rest);
    } else if c == '<' {
      UnescapeLt(rest);
    } else if c == '>' {
      UnescapeGt(rest);
    } else if c == '"' {
      UnescapeQuot(rest);
    } else if c == '\'' {
      UnescapeApos(rest);
    } else {
      UnescapeOther(c, rest);
    }
  }

  lemma UnescapeAmp(rest: string)
    ensures Unescape("&amp;" + rest) == "&" + Unescape(rest)
  {
    var t := "&amp;" + rest;
    assert "&amp;" <= t && t[5..] == rest;
  }

  lemma UnescapeLt(rest: string)
    ensures Unescape("&lt;" + rest) == "<" + Unescape(rest)
  {
    var t := "&lt;" + rest;
    Differs("&amp;", t, 1);
    assert "&lt;" <= t && t[4..] == rest;
  }

  lemma UnescapeGt(rest: string)
    ensures Unescape("&gt;" + rest) == ">" + Unescape(rest)
  {
    var t := "&gt;" + rest;
    Differs("&amp;", t, 1);
    Differs("&lt;", t, 1);
    assert "&gt;" <= t && t[4..] == rest;
  }

  lemma UnescapeQuot(rest: string)
    ensures Unescape("&quot;" + rest) == "\"" + Unescape(rest)
  {
    var t := "&quot;" + rest;
    Differs("&amp;", t, 1);
    Differs("&lt;", t, 1);
    Differs("&gt;", t, 1);
    assert "&quot;" <= t && t[6..] == rest;
  }

  lemma UnescapeApos(rest: string)
    ensures Unescape("&#039;" + rest) == "'" + Unescape(rest)
  {
    var t := "&#039;" + rest;
    Differs("&amp;", t, 1);
    Differs("&lt;", t, 1);
    Differs("&gt;", t, 1);
    Differs("&quot;", t, 1);
    assert "&#039;" <= t && t[6..] == rest;
  }

  lemma UnescapeOther(c: char, rest: string)
    requires !IsSpecial(c)
    ensures Unescape([c] + rest) == [c] + Unescape(rest)
  {
    var t := [c] + rest;
    Differs("&amp;", t, 0);
    Differs("&lt;", t, 0);
    Differs("&gt;", t, 0);
    Differs("&quot;", t, 0);
    Differs("&#039;", t, 0);
    assert t[1..] == rest;
  }

  /** A string is not a prefix of one it differs from at a shared position. */
  lemma Differs(p: string, t: string, i: nat)
    requires i < |p| && i < |t| && p[i] != t[i]
    ensures !(p <= t)
  {
  }

  /** Text without any of the five special characters is shown unchanged. */
  lemma {:induction false} EscapePlain(s: string)
    requires forall i :: 0 <= i < |s| ==> !IsSpecial(s[i])
    ensures Escape(s) == s
  {
    if |s| > 0 {
      EscapePlain(s[1..]);
      assert s == [s[0]] + s[1..];
    }
  }

  /** Escaping works character by character, so it distributes over concatenation. */
  lemma {:induction false} EscapeConcat(a: string, b: string)
    ensures Escape(a + b) == Escape(a) + Escape(b)
  {
    if |a| > 0 {
      assert (a + b)[1..] == a[1..] + b;
      assert (a + b)[0] == a[0];
      EscapeConcat(a[1..], b);
    } else {
      assert a + b == b;
    }
  }
}
