/** `parseCookies` and `buildCookieHeader` of the admin guard
    (netlify/functions/admin-guard.ts): reading the request's Cookie header
    into an object, and writing the session cookie's Set-Cookie value. */
module Cookies {
  import opened Wrappers
  import opened Text
  import opened Primitives
  import opened Records

  /** The pieces splitting at the regular expression `;\s*` yields: the text between semicolons,
      where the whitespace run after each semicolon belongs to the separator.
      The first piece is kept whole; each later one loses its leading
      whitespace (and only that, as `TrimStart` states). */
  function CookieSegments(header: string): (segs: seq<string>)
    ensures var parts := Split(header, ';');
      && |segs| == |parts| && segs[0] == parts[0]
      && forall i :: 0 < i < |segs| ==> segs[i] == TrimStart(parts[i])
    ensures SegmentsOf(header, segs, Gaps(header))
  {
    LaterPieces(header);
    TrimLater(Split(header, ';'))
  }

  /** The text a match of `;\s*` spans after its semicolon: piece `i + 1`'s
      leading whitespace. */
  function Gaps(header: string): (gaps: seq<string>)
    ensures |gaps| == |Split(header, ';')| - 1
  {
    var parts := Split(header, ';');
    seq(|parts| - 1, i requires 0 <= i < |parts| - 1 =>
      parts[i + 1][..|parts[i + 1]| - |TrimStart(parts[i + 1])|])
  }

  /** The header text between two semicolons: the whitespace run that goes
      with the first of them, then the segment. */
  function Pieces(segs: seq<string>, gaps: seq<string>): (ps: seq<string>)
    requires |segs| == |gaps| + 1
    ensures |ps| == |segs| && ps[0] == segs[0]
    ensures forall i :: 0 < i < |ps| ==> ps[i] == gaps[i - 1] + segs[i]
  {
    seq(|segs|, i requires 0 <= i < |segs| => if i == 0 then segs[0] else gaps[i - 1] + segs[i])
  }

  /** `header` is the segments with a separator between each two, the
      separator being a semicolon and the whitespace run `gaps[i]`, and the
      run being as long as it can be (the next segment does not start with
      whitespace): exactly how the matches of `;\s*` cut the header. */
  predicate SegmentsOf(header: string, segs: seq<string>, gaps: seq<string>) {
    && |segs| == |gaps| + 1
    && (forall i :: 0 <= i < |segs| ==> ';' !in segs[i])
    && (forall i :: 0 <= i < |gaps| ==> AllSpace(gaps[i]))
    && (forall i :: 0 < i < |segs| ==> segs[i] == [] || !IsSpace(segs[i][0]))
    && header == Join(Pieces(segs, gaps), ";")
  }

  /** The trimmed pieces and their whitespace runs cut the header as
      `;\s*` does. */
  lemma LaterPieces(header: string)
    ensures SegmentsOf(header, TrimLater(Split(header, ';')), Gaps(header))
  {
    var parts := Split(header, ';');
    var segs, gaps := TrimLater(parts), Gaps(header);
    PiecesOfSplit(header);
    forall i | 0 <= i < |segs|
      ensures ';' !in segs[i]
    {
      if i > 0 {
        SuffixKeeps(parts[i], TrimStart(parts[i]), ';');
      }
    }
    forall i | 0 <= i < |gaps|
      ensures AllSpace(gaps[i])
    {
      var p := parts[i + 1];
      assert gaps[i] == p[..|p| - |TrimStart(p)|];
    }
    assert ";" == [';'];
  }

  /** A piece is its leading whitespace run followed by the rest. */
  lemma RunThenRest(p: string)
    ensures p == p[..|p| - |TrimStart(p)|] + TrimStart(p)
  {
  }

  /** A suffix holds no character its string lacks. */
  lemma SuffixKeeps(s: string, r: string, c: char)
    requires |r| <= |s| && r == s[|s| - |r|..] && c !in s
    ensures c !in r
  {
  }

  /** Putting each run back in front of its trimmed piece gives the pieces. */
  lemma PiecesOfSplit(header: string)
    ensures Pieces(TrimLater(Split(header, ';')), Gaps(header)) == Split(header, ';')
  {
    var parts := Split(header, ';');
    var segs, gaps := TrimLater(parts), Gaps(header);
    var ps := Pieces(segs, gaps);
    forall i | 0 < i < |ps|
      ensures ps[i] == parts[i]
    {
      assert ps[i] == gaps[i - 1] + segs[i];
      assert gaps[i - 1] == parts[i][..|parts[i]| - |TrimStart(parts[i])|];
      RunThenRest(parts[i]);
    }
  }

  /** The cut is unique: any segments and whitespace runs that make up the
      header as `;\s*` cuts it are the ones `CookieSegments` and `Gaps`
      give. */
  lemma CookieSegmentsUnique(header: string, segs: seq<string>, gaps: seq<string>)
    requires SegmentsOf(header, segs, gaps)
    ensures CookieSegments(header) == segs
    ensures Gaps(header) == gaps
  {
    var ps := Pieces(segs, gaps);
    forall i | 0 <= i < |ps|
      ensures ';' !in ps[i]
    {
      if i > 0 {
        var g := gaps[i - 1];
        assert !IsSpace(';');
        assert forall k :: 0 <= k < |g| ==> g[k] != ';';
        assert ps[i] == gaps[i - 1] + segs[i];
      }
    }
    assert ";" == [';'];
    SplitJoin(ps, ';');
    var parts := Split(header, ';');
    assert parts == ps;
    forall i | 0 < i < |segs|
      ensures TrimStart(parts[i]) == segs[i]
    {
      TrimStartGap(gaps[i - 1], segs[i]);
    }
    forall i | 0 <= i < |gaps|
      ensures Gaps(header)[i] == gaps[i]
    {
      TrimStartGap(gaps[i], segs[i + 1]);
      assert parts[i + 1] == gaps[i] + segs[i + 1];
      assert (gaps[i] + segs[i + 1])[..|gaps[i]|] == gaps[i];
    }
  }

  /** The first piece as it is, the others without their leading
      whitespace. */
  function TrimLater(parts: seq<string>): (segs: seq<string>)
    requires |parts| >= 1
    ensures |segs| == |parts| && segs[0] == parts[0]
    ensures forall i :: 0 < i < |segs| ==> segs[i] == TrimStart(parts[i])
  {
    seq(|parts|, i requires 0 <= i < |parts| => if i == 0 then parts[0] else TrimStart(parts[i]))
  }

  /** A piece's name and raw value: the text before and after the first `=`.
      A piece without `=`, or starting with it, has none. */
  function CookiePair(seg: string): (r: Option<(string, string)>)
    ensures r.Some? <==> '=' in seg && seg[0] != '='
    ensures r.Some? ==> seg == r.value.0 + "=" + r.value.1 && r.value.0 != "" && '=' !in r.value.0
  {
    var i := IndexOf(seg, '=');
    if i > 0 then Some((seg[..i], seg[i + 1..])) else None
  }

  /** What one piece does to the result: nothing, or an assignment of the
      decoded value to the name. */
  function CookieAssignment(p: Foreign, seg: string): Assignment {
    match CookiePair(seg)
    case None => Skip
    case Some((name, raw)) => Put(Some(name), p.decodeUri(raw))
  }

  function CookieAssignments(p: Foreign, segs: seq<string>): (r: seq<Assignment>)
    ensures |r| == |segs| && forall i :: 0 <= i < |segs| ==> r[i] == CookieAssignment(p, segs[i])
  {
    seq(|segs|, i requires 0 <= i < |segs| => CookieAssignment(p, segs[i]))
  }

  /** The object the pieces fill. */
  function CookiesOf(p: Foreign, segs: seq<string>): Option<map<string, string>> {
    Fill(CookieAssignments(p, segs))
  }

  /** `parseCookies(header)`; `None` when a value fails to decode (the
      `URIError` propagates). */
  function ParseCookies(p: Foreign, header: string): Option<map<string, string>> {
    CookiesOf(p, CookieSegments(header))
  }

  /** Piece `i` of the header names a cookie `name`. */
  predicate Names(segs: seq<string>, i: int, name: string) {
    0 <= i < |segs| && CookiePair(segs[i]).Some? && CookiePair(segs[i]).value.0 == name
  }

  /** Piece `i` is the last one naming `name`. */
  predicate LastNames(segs: seq<string>, i: int, name: string) {
    Names(segs, i, name) && forall j :: i < j < |segs| ==> !Names(segs, j, name)
  }

  /** Parsing fails exactly when some piece with a name has a value that
      does not decode. */
  lemma CookiesFails(p: Foreign, segs: seq<string>)
    ensures CookiesOf(p, segs).None? <==>
      exists i :: 0 <= i < |segs| && CookiePair(segs[i]).Some? && p.decodeUri(CookiePair(segs[i]).value.1).None?
  {
    var pieces := CookieAssignments(p, segs);
    FillThrows(pieces);
    if exists i :: 0 <= i < |pieces| && Throws(pieces[i]) {
      var i :| 0 <= i < |pieces| && Throws(pieces[i]);
      assert CookiePair(segs[i]).Some? && p.decodeUri(CookiePair(segs[i]).value.1).None?;
    }
    if exists i :: 0 <= i < |segs| && CookiePair(segs[i]).Some? && p.decodeUri(CookiePair(segs[i]).value.1).None? {
      var i :| 0 <= i < |segs| && CookiePair(segs[i]).Some? && p.decodeUri(CookiePair(segs[i]).value.1).None?;
      assert Throws(pieces[i]);
    }
  }

  /** When parsing succeeds, a name is present exactly when some piece
      carries it. */
  lemma CookiesKeys(p: Foreign, segs: seq<string>, name: string)
    requires CookiesOf(p, segs).Some?
    ensures name in CookiesOf(p, segs).value <==> exists i :: Names(segs, i, name)
  {
    var pieces := CookieAssignments(p, segs);
    FillThrows(pieces);
    FillKeys(pieces, name);
    if exists i :: Names(segs, i, name) {
      var i :| Names(segs, i, name);
      assert !Throws(pieces[i]);
      assert Sets(pieces[i], name);
    }
    if exists i :: 0 <= i < |pieces| && Sets(pieces[i], name) {
      var i :| 0 <= i < |pieces| && Sets(pieces[i], name);
      assert Names(segs, i, name);
    }
  }

  /** Later pieces overwrite earlier ones: a present name has the decoded
      value of the last piece that carries it. */
  lemma CookiesLast(p: Foreign, segs: seq<string>, name: string)
    requires CookiesOf(p, segs).Some? && name in CookiesOf(p, segs).value
    ensures exists i :: LastNames(segs, i, name) && p.decodeUri(CookiePair(segs[i]).value.1) == Some(CookiesOf(p, segs).value[name])
  {
    var pieces := CookieAssignments(p, segs);
    FillLast(pieces, name);
    var i :| LastSet(pieces, i, name) && pieces[i].value == Some(Fill(pieces).value[name]);
    forall j | i < j < |segs|
      ensures !Names(segs, j, name)
    {
      assert !Sets(pieces[j], name);
      FillThrows(pieces);
      assert !Throws(pieces[j]);
    }
    assert Names(segs, i, name);
    assert LastNames(segs, i, name);
  }

  /** A piece `k=v` with a non-empty name free of `=` has name `k` and
      raw value `v`. */
  lemma PairOfNameValue(k: string, v: string)
    requires k != "" && '=' !in k
    ensures CookiePair(k + "=" + v) == Some((k, v))
  {
    var seg := k + "=" + v;
    assert seg[..|k|] == k && seg[|k|] == '=';
    IndexOfFirst(seg, '=', |k|);
    assert seg[|k| + 1..] == v;
  }
}
