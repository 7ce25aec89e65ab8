/** `buildCookieHeader` of the admin guard (netlify/functions/admin-guard.ts):
    the Set-Cookie value of the session cookie, and how `parseCookies` reads
    it back. */
module CookieHeader {
  import opened Wrappers
  import opened Text
  import opened Primitives
  import opened Records
  import opened Cookies

  /** `buildCookieHeader(name, value)`: the encoded pair followed by the
      fixed attributes, joined by `'; '`. */
  function BuildCookieHeader(p: Foreign, name: string, value: string): string {
    Join([name + "=" + p.encodeUri(value)] + Attributes, "; ")
  }

  /** The attributes of the session cookie: scoped to `/admin`, hidden from
      scripts, sent over HTTPS only, never cross-site, for one day. */
  const Attributes: seq<string> := ["Path=/admin", "HttpOnly", "Secure", "SameSite=Strict", "Max-Age=86400"]

  /** The attributes hold no semicolon and start with a non-space. */
  lemma AttributesPlain()
    ensures forall i :: 0 <= i < |Attributes| ==> ';' !in Attributes[i] && Attributes[i] != [] && !IsSpace(Attributes[i][0])
  {
  }

  /** The pieces of the header with a first piece free of semicolons meet
      the conditions for splitting back. */
  lemma HeaderPartsPlain(pair: string)
    requires ';' !in pair
    ensures var parts := [pair] + Attributes;
      && |parts| == 6
      && (forall i :: 0 <= i < |parts| ==> ';' !in parts[i])
      && (forall i :: 0 < i < |parts| ==> parts[i] != [] && !IsSpace(parts[i][0]))
  {
    AttributesPlain();
    var parts := [pair] + Attributes;
    assert forall i :: 0 < i < |parts| ==> parts[i] == Attributes[i - 1];
  }

  /** An encoded value never contains the cookie separator. */
  lemma EncodedHasNoSeparator(p: Foreign, value: string)
    requires Sound(p)
    ensures ';' !in p.encodeUri(value)
  {
    var e := p.encodeUri(value);
    forall i | 0 <= i < |e|
      ensures e[i] != ';'
    {
      assert IsUnreserved(e[i]) || e[i] == '%';
    }
  }

  /** The first piece of the session cookie's header: its name and the
      encoded value. */
  lemma EncodedPair(p: Foreign, name: string, value: string)
    requires Sound(p)
    requires name != "" && '=' !in name && ';' !in name
    ensures ';' !in name + "=" + p.encodeUri(value)
    ensures CookieAssignment(p, name + "=" + p.encodeUri(value)) == Put(Some(name), Some(value))
  {
    EncodedHasNoSeparator(p, value);
    assert name + "=" + p.encodeUri(value) == name + ("=" + p.encodeUri(value));
    PairOfNameValue(name, p.encodeUri(value));
  }

  /** A Cookie header holding one encoded pair parses back to that pair. */
  lemma SinglePairRoundTrip(p: Foreign, name: string, value: string)
    requires Sound(p)
    requires name != "" && '=' !in name && ';' !in name
    ensures ParseCookies(p, name + "=" + p.encodeUri(value)) == Some(map[name := value])
  {
    var header := name + "=" + p.encodeUri(value);
    EncodedPair(p, name, value);
    SplitJoin([header], ';');
    var segs := CookieSegments(header);
    assert segs == [header];
    var pieces := CookieAssignments(p, segs);
    assert pieces == [Put(Some(name), Some(value))];
    assert pieces[..0] == [];
    assert Fill(pieces) == Some(map[name := value]);
  }

  /** What a browser sends back for a Set-Cookie value: the name-value pair
      before the first `;`, without the attributes. */
  function CookieSent(setCookie: string): string {
    Split(setCookie, ';')[0]
  }

  /** The browser returns the session cookie's pair, which parses back to
      the name and the value the guard issued. */
  lemma SessionCookieReturns(p: Foreign, name: string, value: string)
    requires Sound(p)
    requires name != "" && '=' !in name && ';' !in name
    ensures CookieSent(BuildCookieHeader(p, name, value)) == name + "=" + p.encodeUri(value)
    ensures ParseCookies(p, CookieSent(BuildCookieHeader(p, name, value))) == Some(map[name := value])
  {
    var pair := name + "=" + p.encodeUri(value);
    EncodedPair(p, name, value);
    HeaderPartsPlain(pair);
    SplitOfJoin([pair] + Attributes);
    SinglePairRoundTrip(p, name, value);
  }

  /** Joining with `'; '` pieces that contain no semicolon, and of which all
      but the first start with a non-space, gives a header that splits back
      into exactly those pieces. */
  lemma SegmentsOfJoin(parts: seq<string>)
    requires |parts| >= 1
    requires forall i :: 0 <= i < |parts| ==> ';' !in parts[i]
    requires forall i :: 0 < i < |parts| ==> parts[i] != [] && !IsSpace(parts[i][0])
    ensures CookieSegments(Join(parts, "; ")) == parts
  {
    var gaps := seq(|parts| - 1, i => " ");
    JoinedSegments(parts, gaps);
    CookieSegmentsUnique(Join(parts, "; "), parts, gaps);
  }

  /** The `'; '`-join is cut by `;\s*` into the pieces, with one space
      after each semicolon. */
  lemma JoinedSegments(parts: seq<string>, gaps: seq<string>)
    requires |parts| >= 1 && |gaps| == |parts| - 1
    requires forall i :: 0 <= i < |gaps| ==> gaps[i] == " "
    requires forall i :: 0 <= i < |parts| ==> ';' !in parts[i]
    requires forall i :: 0 < i < |parts| ==> parts[i] != [] && !IsSpace(parts[i][0])
    ensures SegmentsOf(Join(parts, "; "), parts, gaps)
  {
    assert Pieces(parts, gaps) == Widen(parts, ' ');
    JoinWiden(parts, ';', ' ');
    assert "; " == [';', ' '] && ";" == [';'];
  }

  /** Splitting at `;` a join with `'; '` gives the pieces, all but the
      first with a space in front. */
  lemma SplitOfJoin(parts: seq<string>)
    requires |parts| >= 1
    requires forall i :: 0 <= i < |parts| ==> ';' !in parts[i]
    ensures Split(Join(parts, "; "), ';') == Widen(parts, ' ')
  {
    var wide := Widen(parts, ' ');
    JoinWiden(parts, ';', ' ');
    assert forall i :: 0 <= i < |wide| ==> ';' !in wide[i];
    SplitJoin(wide, ';');
  }

  /** Four assignments with two skipped pieces between the second and the
      third fill the object in order. */
  lemma FillFour(pieces: seq<Assignment>, k1: string, v1: string, k2: string, v2: string, k3: string, v3: string, k4: string, v4: string)
    requires |pieces| == 6
    requires pieces[0] == Put(Some(k1), Some(v1)) && pieces[1] == Put(Some(k2), Some(v2))
    requires pieces[2] == Skip && pieces[3] == Skip
    requires pieces[4] == Put(Some(k3), Some(v3)) && pieces[5] == Put(Some(k4), Some(v4))
    ensures Fill(pieces) == Some(map[k1 := v1, k2 := v2, k3 := v3, k4 := v4])
  {
    assert pieces[..1][..0] == [];
    assert Fill(pieces[..1]) == Some(map[k1 := v1]);
    assert pieces[..2][..1] == pieces[..1];
    assert Fill(pieces[..2]) == Some(map[k1 := v1, k2 := v2]);
    assert pieces[..3][..2] == pieces[..2];
    assert Fill(pieces[..3]) == Some(map[k1 := v1, k2 := v2]);
    assert pieces[..4][..3] == pieces[..3];
    assert Fill(pieces[..4]) == Some(map[k1 := v1, k2 := v2]);
    assert pieces[..5][..4] == pieces[..4];
    assert Fill(pieces[..5]) == Some(map[k1 := v1, k2 := v2, k3 := v3]);
    assert pieces[..5] == pieces[..|pieces| - 1];
  }

  /** The pieces of the session cookie's header. */
  lemma HeaderSegments(p: Foreign, name: string, value: string)
    requires Sound(p)
    requires name != "" && '=' !in name && ';' !in name
    ensures CookieSegments(BuildCookieHeader(p, name, value)) == [name + "=" + p.encodeUri(value)] + Attributes
  {
    var pair := name + "=" + p.encodeUri(value);
    EncodedPair(p, name, value);
    HeaderPartsPlain(pair);
    SegmentsOfJoin([pair] + Attributes);
  }

  /** What each piece of the session cookie's header assigns. */
  lemma HeaderAssignments(p: Foreign, name: string, value: string)
    requires Sound(p)
    requires name != "" && '=' !in name && ';' !in name
    ensures var pieces := CookieAssignments(p, CookieSegments(BuildCookieHeader(p, name, value)));
      && |pieces| == 6
      && pieces[0] == Put(Some(name), Some(value))
      && pieces[1] == Put(Some("Path"), Some("/admin"))
      && pieces[2] == Skip && pieces[3] == Skip
      && pieces[4] == Put(Some("SameSite"), Some("Strict"))
      && pieces[5] == Put(Some("Max-Age"), Some("86400"))
  {
    HeaderSegments(p, name, value);
    EncodedPair(p, name, value);
    PathPiece(p);
    SameSitePiece(p);
    MaxAgePiece(p);
    FlagPieces(p);
  }

  /** Reading back the session cookie's header: the name maps to the value,
      and the attributes with a `=` are read as cookies too (and win over
      the name should it be one of theirs). */
  lemma CookieRoundTrip(p: Foreign, name: string, value: string)
    requires Sound(p)
    requires name != "" && '=' !in name && ';' !in name
    ensures ParseCookies(p, BuildCookieHeader(p, name, value))
      == Some(map[name := value, "Path" := "/admin", "SameSite" := "Strict", "Max-Age" := "86400"])
  {
    HeaderAssignments(p, name, value);
    var pieces := CookieAssignments(p, CookieSegments(BuildCookieHeader(p, name, value)));
    FillFour(pieces, name, value, "Path", "/admin", "SameSite", "Strict", "Max-Age", "86400");
  }

  /** What the attribute pieces do: `Path`, `SameSite` and `Max-Age` are read
      as cookies, the two flags are skipped. */
  lemma PathPiece(p: Foreign)
    requires Sound(p)
    ensures CookieAssignment(p, "Path=/admin") == Put(Some("Path"), Some("/admin"))
  {
    PlainDecodes(p, "/admin");
    PairOfNameValue("Path", "/admin");
    assert "Path" + "=" + "/admin" == "Path=/admin";
  }

  lemma SameSitePiece(p: Foreign)
    requires Sound(p)
    ensures CookieAssignment(p, "SameSite=Strict") == Put(Some("SameSite"), Some("Strict"))
  {
    PlainDecodes(p, "Strict");
    PairOfNameValue("SameSite", "Strict");
    assert "SameSite" + "=" + "Strict" == "SameSite=Strict";
  }

  lemma MaxAgePiece(p: Foreign)
    requires Sound(p)
    ensures CookieAssignment(p, "Max-Age=86400") == Put(Some("Max-Age"), Some("86400"))
  {
    PlainDecodes(p, "86400");
    PairOfNameValue("Max-Age", "86400");
    assert "Max-Age" + "=" + "86400" == "Max-Age=86400";
  }

  lemma FlagPieces(p: Foreign)
    ensures CookieAssignment(p, "HttpOnly") == Skip && CookieAssignment(p, "Secure") == Skip
  {
    assert '=' !in "HttpOnly" && '=' !in "Secure";
  }

  /** Text without `%` decodes to itself. */
  lemma PlainDecodes(p: Foreign, v: string)
    requires Sound(p) && '%' !in v
    ensures p.decodeUri(v) == Some(v)
  {
  }
}
