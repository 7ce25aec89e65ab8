/** The foreign primitives the admin guard (netlify/functions/admin-guard.ts)
    calls: `encodeURIComponent`, `decodeURIComponent`, Node's base64
    encoder and `JSON.parse`. They are parameters of the model, bundled in
    one record; `Sound` lists the only facts the proofs use about them. */
module Primitives {
  import opened Wrappers

  /** What the guard can observe of a parsed JSON document: `null`, or any
      other value together with the outcome of `(doc.password || '').toString()`
      on it, `None` when that expression throws. */
  datatype JsonDoc = JsonNull | JsonValue(passwordText: Option<string>)

  /** The characters `encodeURIComponent` leaves as they are (section 2.3 of
      RFC 3986, plus `!*'()`). Everything else comes out as `%XX` triples. */
  predicate IsUnreserved(c: char) {
    || ('A' <= c <= 'Z') || ('a' <= c <= 'z') || ('0' <= c <= '9')
    || c == '-' || c == '_' || c == '.' || c == '!' || c == '~' || c == '*' || c == '\'' || c == '(' || c == ')'
  }

  /** The four primitives. `decodeUri` returns `None` where
      `decodeURIComponent` throws a `URIError`; `parseJson` returns `None`
      where `JSON.parse` throws. `base64` is RFC 4648 section 4 encoding of
      the UTF-8 bytes of its argument. */
  datatype Foreign = Foreign(
    encodeUri: string -> string,
    decodeUri: string -> Option<string>,
    base64: string -> string,
    parseJson: string -> Option<JsonDoc>)

  /** The facts about the primitives the model relies on: decoding undoes
      encoding; encoding only produces unreserved characters and `%`; text
      without `%` decodes to itself; and `JSON.parse('{}')` is an object
      without a `password` field. */
  ghost predicate Sound(p: Foreign) {
    && (forall s :: p.decodeUri(p.encodeUri(s)) == Some(s))
    && (forall s, i :: 0 <= i < |p.encodeUri(s)| ==> IsUnreserved(p.encodeUri(s)[i]) || p.encodeUri(s)[i] == '%')
    && (forall s :: '%' !in s ==> p.decodeUri(s) == Some(s))
    && p.parseJson("{}") == Some(JsonValue(Some("")))
  }
}
