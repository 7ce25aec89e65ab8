/** `parseFormUrlEncoded` of the admin guard (netlify/functions/admin-guard.ts):
    reading a login form body such as `password=hunter2` into an object. */
module Forms {
  import opened Wrappers
  import opened Text
  import opened Primitives
  import opened Records

  /** `const [k, v] = pair.split('=')` followed by `v || ''`: the text before
      the first `=`, and the text between the first `=` and the next one (or
      the end); the value is empty when there is no `=`. Anything after a
      second `=` is dropped. */
  function KeyValue(pair: string): (r: (string, string))
    ensures '=' !in r.0 && '=' !in r.1
    ensures '=' !in pair ==> r == (pair, "")
    ensures '=' in pair ==>
      && r.0 + "=" + r.1 <= pair
      && (|r.0| + 1 + |r.1| == |pair| || pair[|r.0| + 1 + |r.1|] == '=')
  {
    var parts := Split(pair, '=');
    if |parts| == 1 then
      (parts[0], "")
    else
      assert pair == parts[0] + "=" + Join(parts[1..], "=");
      if |parts| == 2 then
        (parts[0], parts[1])
      else
        assert Join(parts[1..], "=") == parts[1] + "=" + Join(parts[2..], "=") by {
          assert parts[1..][1..] == parts[2..];
        }
        assert pair == (parts[0] + "=" + parts[1]) + ("=" + Join(parts[2..], "="));
        (parts[0], parts[1])
  }

  /** `k=a=b` keeps `a` as the value of `k`. */
  lemma KeyValueDropsRest(k: string, a: string, b: string)
    requires '=' !in k && '=' !in a
    ensures KeyValue(k + "=" + (a + "=" + b)) == (k, a)
  {
    var rest := a + "=" + b;
    SplitCons(a, '=', b);
    SplitCons(k, '=', rest);
    var parts := Split(k + "=" + rest, '=');
    assert parts[0] == k && parts[1] == a && |parts| >= 2;
  }

  /** A single `k=v` pair with `=`-free parts splits into `k` and `v`. */
  lemma FieldKeyValue(k: string, v: string)
    requires '=' !in k && '=' !in v
    ensures KeyValue(k + "=" + v) == (k, v)
  {
    SplitCons(k, '=', v);
    assert IndexOf(v, '=') == -1;
  }

  /** The decoding the form standard prescribes before percent-decoding:
      `+` stands for a space. */
  function PlusToSpace(s: string): (r: string)
    ensures |r| == |s|
    ensures forall i :: 0 <= i < |s| ==> r[i] == if s[i] == '+' then ' ' else s[i]
  {
    seq(|s|, i requires 0 <= i < |s| => if s[i] == '+' then ' ' else s[i])
  }

  /** Decoding one key or value: `decodeURIComponent` alone, as the code
      does, or after mapping `+` to a space, as section 5.1 of the WHATWG URL
      standard prescribes for `application/x-www-form-urlencoded`. */
  function DecodeComponent(p: Foreign, s: string, plusAsSpace: bool): Option<string> {
    p.decodeUri(if plusAsSpace then PlusToSpace(s) else s)
  }

  /** What one `&`-separated pair does: an empty pair is skipped, any other
      assigns its decoded value to its decoded key. */
  function PairAssignment(p: Foreign, pair: string, plusAsSpace: bool): (r: Assignment)
    ensures r.Skip? <==> pair == ""
  {
    if pair == "" then Skip
    else
      var (k, v) := KeyValue(pair);
      Put(DecodeComponent(p, k, plusAsSpace), DecodeComponent(p, v, plusAsSpace))
  }

  function PairAssignments(p: Foreign, pairs: seq<string>, plusAsSpace: bool): (r: seq<Assignment>)
    ensures |r| == |pairs| && forall i :: 0 <= i < |pairs| ==> r[i] == PairAssignment(p, pairs[i], plusAsSpace)
  {
    seq(|pairs|, i requires 0 <= i < |pairs| => PairAssignment(p, pairs[i], plusAsSpace))
  }

  /** The object the pairs fill, `None` when a key or value fails to
      decode (the `URIError` propagates). */
  function FormOfPairs(p: Foreign, pairs: seq<string>, plusAsSpace: bool): Option<map<string, string>> {
    Fill(PairAssignments(p, pairs, plusAsSpace))
  }

  /** The object a form body fills: its pairs are separated by `&`. */
  function FormOf(p: Foreign, body: string, plusAsSpace: bool): Option<map<string, string>> {
    FormOfPairs(p, Split(body, '&'), plusAsSpace)
  }

  /** `parseFormUrlEncoded(body)` as written: `+` is kept as it is. */
  function ParseFormAsWritten(p: Foreign, body: string): Option<map<string, string>> {
    FormOf(p, body, false)
  }

  /** `parseFormUrlEncoded(body)` with `+` read as a space, as browsers
      encode spaces in form submissions: the parser as written, run on the
      body once every `+` in it is a space. */
  function ParseForm(p: Foreign, body: string): (r: Option<map<string, string>>)
    ensures r == ParseFormAsWritten(p, PlusToSpace(body))
  {
    FormPlus(p, body);
    FormOf(p, body, true)
  }

  /** The pieces with every `+` in them read as a space. */
  function MapPlus(parts: seq<string>): (r: seq<string>)
    ensures |r| == |parts| && forall i :: 0 <= i < |parts| ==> r[i] == PlusToSpace(parts[i])
  {
    seq(|parts|, i requires 0 <= i < |parts| => PlusToSpace(parts[i]))
  }

  /** The `+` mapping works character by character. */
  lemma PlusToSpaceConcat(a: string, b: string)
    ensures PlusToSpace(a + b) == PlusToSpace(a) + PlusToSpace(b)
  {
    assert forall i :: 0 <= i < |a| ==> (a + b)[i] == a[i];
    assert forall i :: |a| <= i < |a + b| ==> (a + b)[i] == b[i - |a|];
  }

  /** Mapping `+` in a join maps it in every piece and leaves a separator
      other than `+` alone. */
  lemma {:induction false} PlusToSpaceJoin(parts: seq<string>, sep: char)
    requires sep != '+'
    ensures PlusToSpace(Join(parts, [sep])) == Join(MapPlus(parts), [sep])
    decreases |parts|
  {
    if |parts| > 1 {
      var rest := Join(parts[1..], [sep]);
      PlusToSpaceJoin(parts[1..], sep);
      assert MapPlus(parts)[1..] == MapPlus(parts[1..]);
      PlusToSpaceConcat(parts[0] + [sep], rest);
      PlusToSpaceConcat(parts[0], [sep]);
    }
  }

  /** Splitting after the `+` mapping splits the same way: the pieces are
      the mapped pieces, for a separator other than `+` and space. */
  lemma SplitPlus(s: string, sep: char)
    requires sep != '+' && sep != ' '
    ensures Split(PlusToSpace(s), sep) == MapPlus(Split(s, sep))
  {
    var parts := Split(s, sep);
    var mapped := MapPlus(parts);
    PlusToSpaceJoin(parts, sep);
    forall i | 0 <= i < |mapped|
      ensures sep !in mapped[i]
    {
      var x := parts[i];
      assert sep !in x;
      assert forall j :: 0 <= j < |x| ==> mapped[i][j] != sep;
    }
    SplitJoin(mapped, sep);
  }

  /** A pair's key and value after the `+` mapping are the mapped key and value. */
  lemma KeyValuePlus(pair: string)
    ensures KeyValue(PlusToSpace(pair)) == (PlusToSpace(KeyValue(pair).0), PlusToSpace(KeyValue(pair).1))
  {
    SplitPlus(pair, '=');
    assert PlusToSpace("") == "";
  }

  /** Reading `+` as a space while decoding a form is decoding, as written,
      the form whose `+` were already spaces. */
  lemma FormPlus(p: Foreign, body: string)
    ensures FormOf(p, body, true) == FormOf(p, PlusToSpace(body), false)
  {
    var pairs := Split(body, '&');
    SplitPlus(body, '&');
    var mapped := MapPlus(pairs);
    forall i | 0 <= i < |pairs|
      ensures PairAssignment(p, mapped[i], false) == PairAssignment(p, pairs[i], true)
    {
      KeyValuePlus(pairs[i]);
      assert mapped[i] == "" <==> pairs[i] == "";
    }
    assert PairAssignments(p, mapped, false) == PairAssignments(p, pairs, true);
  }

  /** Pair `i` of the body is non-empty and its key decodes to `name`. */
  predicate Names(p: Foreign, pairs: seq<string>, i: int, name: string, plusAsSpace: bool) {
    0 <= i < |pairs| && pairs[i] != "" && DecodeComponent(p, KeyValue(pairs[i]).0, plusAsSpace) == Some(name)
  }

  /** Pair `i` is the last one whose key decodes to `name`. */
  predicate LastNames(p: Foreign, pairs: seq<string>, i: int, name: string, plusAsSpace: bool) {
    Names(p, pairs, i, name, plusAsSpace) && forall j :: i < j < |pairs| ==> !Names(p, pairs, j, name, plusAsSpace)
  }

  /** Parsing fails exactly when a non-empty pair has a key or a value that
      does not decode. */
  lemma FormFails(p: Foreign, pairs: seq<string>, plusAsSpace: bool)
    ensures FormOfPairs(p, pairs, plusAsSpace).None? <==>
      exists i :: 0 <= i < |pairs| && pairs[i] != "" &&
        (DecodeComponent(p, KeyValue(pairs[i]).0, plusAsSpace).None? || DecodeComponent(p, KeyValue(pairs[i]).1, plusAsSpace).None?)
  {
    var pieces := PairAssignments(p, pairs, plusAsSpace);
    FillThrows(pieces);
    if exists i :: 0 <= i < |pieces| && Throws(pieces[i]) {
      var i :| 0 <= i < |pieces| && Throws(pieces[i]);
      assert pairs[i] != "";
    }
  }

  /** When parsing succeeds, a key is present exactly when some non-empty
      pair's key decodes to it. */
  lemma FormKeys(p: Foreign, pairs: seq<string>, name: string, plusAsSpace: bool)
    requires FormOfPairs(p, pairs, plusAsSpace).Some?
    ensures name in FormOfPairs(p, pairs, plusAsSpace).value <==> exists i :: Names(p, pairs, i, name, plusAsSpace)
  {
    var pieces := PairAssignments(p, pairs, plusAsSpace);
    FillThrows(pieces);
    FillKeys(pieces, name);
    if exists i :: Names(p, pairs, i, name, plusAsSpace) {
      var i :| Names(p, pairs, i, name, plusAsSpace);
      assert !Throws(pieces[i]);
      assert Sets(pieces[i], name);
    }
    if exists i :: 0 <= i < |pieces| && Sets(pieces[i], name) {
      var i :| 0 <= i < |pieces| && Sets(pieces[i], name);
      assert Names(p, pairs, i, name, plusAsSpace);
    }
  }

  /** Later pairs overwrite earlier ones: a present key has the decoded
      value of the last pair whose key decodes to it. */
  lemma FormLast(p: Foreign, pairs: seq<string>, name: string, plusAsSpace: bool)
    requires FormOfPairs(p, pairs, plusAsSpace).Some? && name in FormOfPairs(p, pairs, plusAsSpace).value
    ensures exists i ::
      && LastNames(p, pairs, i, name, plusAsSpace)
      && DecodeComponent(p, KeyValue(pairs[i]).1, plusAsSpace) == Some(FormOfPairs(p, pairs, plusAsSpace).value[name])
  {
    var pieces := PairAssignments(p, pairs, plusAsSpace);
    FillLast(pieces, name);
    var i :| LastSet(pieces, i, name) && pieces[i].value == Some(Fill(pieces).value[name]);
    forall j | i < j < |pairs|
      ensures !Names(p, pairs, j, name, plusAsSpace)
    {
      assert !Sets(pieces[j], name);
      FillThrows(pieces);
      assert !Throws(pieces[j]);
    }
    assert Names(p, pairs, i, name, plusAsSpace);
    assert LastNames(p, pairs, i, name, plusAsSpace);
  }

  /** An encoded value contains no `+`, no `=` and no `&`. */
  lemma EncodedIsPlain(p: Foreign, value: string)
    requires Sound(p)
    ensures '+' !in p.encodeUri(value) && '=' !in p.encodeUri(value) && '&' !in p.encodeUri(value)
  {
    var e := p.encodeUri(value);
    forall i | 0 <= i < |e|
      ensures e[i] != '+' && e[i] != '=' && e[i] != '&'
    {
      assert IsUnreserved(e[i]) || e[i] == '%';
    }
  }

  /** Text without `+` is unchanged by the `+` mapping. */
  lemma PlusToSpaceNoPlus(s: string)
    requires '+' !in s
    ensures PlusToSpace(s) == s
  {
  }

  /** A body holding one `k=v` field, with neither part containing `=` or
      `&`, fills exactly that field when both parts decode, and fails
      otherwise. */
  lemma SingleField(p: Foreign, key: string, raw: string, plusAsSpace: bool)
    requires '=' !in key && '&' !in key && '=' !in raw && '&' !in raw
    ensures var k := DecodeComponent(p, key, plusAsSpace);
      var v := DecodeComponent(p, raw, plusAsSpace);
      FormOf(p, key + "=" + raw, plusAsSpace) == if k.Some? && v.Some? then Some(map[k.value := v.value]) else None
  {
    var body := key + "=" + raw;
    assert '&' !in body by {
      assert body == key + ("=" + raw);
    }
    SplitJoin([body], '&');
    FieldKeyValue(key, raw);
    var pieces := PairAssignments(p, [body], plusAsSpace);
    var k := DecodeComponent(p, key, plusAsSpace);
    var v := DecodeComponent(p, raw, plusAsSpace);
    assert Split(body, '&') == [body];
    assert pieces == [Put(k, v)];
    assert pieces[..0] == [];
    assert FormOf(p, body, plusAsSpace) == Fill(pieces);
  }

  /** A body holding one field whose value went through
      `encodeURIComponent` parses back to that field, with or without the
      `+` mapping. */
  lemma FormRoundTrip(p: Foreign, name: string, value: string, plusAsSpace: bool)
    requires Sound(p)
    requires '=' !in name && '&' !in name && '%' !in name && '+' !in name
    ensures FormOf(p, name + "=" + p.encodeUri(value), plusAsSpace) == Some(map[name := value])
  {
    var e := p.encodeUri(value);
    EncodedIsPlain(p, value);
    PlusToSpaceNoPlus(e);
    PlusToSpaceNoPlus(name);
    SingleField(p, name, e, plusAsSpace);
  }
}
