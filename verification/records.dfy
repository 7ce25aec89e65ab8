/** The pattern both request parsers of the admin guard
    (netlify/functions/admin-guard.ts) share: a `forEach` over the pieces of
    a header or body that fills a plain object with `out[key] = value`,
    where computing the key or the value may throw. */
module Records {
  import opened Wrappers

  /** One piece's effect: skipped, or an assignment whose key and value were
      computed by calls that may throw (`None`). */
  datatype Assignment = Skip | Put(key: Option<string>, value: Option<string>)

  /** The piece throws while its key or value is computed. */
  predicate Throws(a: Assignment) {
    a.Put? && (a.key.None? || a.value.None?)
  }

  /** The piece assigns some value to `k`. */
  predicate Sets(a: Assignment, k: string) {
    a.Put? && a.key == Some(k) && a.value.Some?
  }

  /** Piece `i` is the last one that assigns `k`. */
  predicate LastSet(pieces: seq<Assignment>, i: int, k: string) {
    && 0 <= i < |pieces| && Sets(pieces[i], k)
    && forall j :: i < j < |pieces| ==> !Sets(pieces[j], k)
  }

  /** The object the `forEach` leaves, or `None` when one of the pieces
      throws (the exception leaves the loop). */
  function Fill(pieces: seq<Assignment>): Option<map<string, string>>
  {
    if |pieces| == 0 then Some(map[])
    else match Fill(pieces[..|pieces| - 1])
      case None => None
      case Some(m) =>
        match pieces[|pieces| - 1]
        case Put(Some(k), Some(v)) => Some(m[k := v])
        case Put(_, _) => None
        case Skip => Some(m)
  }

  /** The loop fails exactly when some piece throws. */
  lemma {:induction false} FillThrows(pieces: seq<Assignment>)
    ensures Fill(pieces).None? <==> exists i :: 0 <= i < |pieces| && Throws(pieces[i])
  {
    if |pieces| > 0 {
      var prefix := pieces[..|pieces| - 1];
      FillThrows(prefix);
      if exists i :: 0 <= i < |prefix| && Throws(prefix[i]) {
        var i :| 0 <= i < |prefix| && Throws(prefix[i]);
        assert pieces[i] == prefix[i];
      }
      if exists i :: 0 <= i < |pieces| && Throws(pieces[i]) {
        var i :| 0 <= i < |pieces| && Throws(pieces[i]);
        if i < |prefix| {
          assert prefix[i] == pieces[i];
        }
      }
    }
  }

  /** When the loop succeeds, a key is in the object exactly when some piece
      assigns it. */
  lemma {:induction false} FillKeys(pieces: seq<Assignment>, k: string)
    requires Fill(pieces).Some?
    ensures k in Fill(pieces).value <==> exists i :: 0 <= i < |pieces| && Sets(pieces[i], k)
  {
    if |pieces| > 0 {
      var prefix := pieces[..|pieces| - 1];
      FillKeys(prefix, k);
      if exists i :: 0 <= i < |prefix| && Sets(prefix[i], k) {
        var i :| 0 <= i < |prefix| && Sets(prefix[i], k);
        assert pieces[i] == prefix[i];
      }
      if exists i :: 0 <= i < |pieces| && Sets(pieces[i], k) {
        var i :| 0 <= i < |pieces| && Sets(pieces[i], k);
        if i < |prefix| {
          assert prefix[i] == pieces[i];
        }
      }
    }
  }

  /** Later assignments overwrite earlier ones: the value of a key is the
      one the last piece assigning that key computed. */
  lemma {:induction false} FillLast(pieces: seq<Assignment>, k: string)
    requires Fill(pieces).Some? && k in Fill(pieces).value
    ensures exists i :: LastSet(pieces, i, k) && pieces[i].value == Some(Fill(pieces).value[k])
  {
    var prefix := pieces[..|pieces| - 1];
    var last := pieces[|pieces| - 1];
    if Sets(last, k) {
      assert LastSet(pieces, |pieces| - 1, k);
    } else {
      assert Fill(prefix).Some? && k in Fill(prefix).value;
      FillLast(prefix, k);
      var i :| LastSet(prefix, i, k) && prefix[i].value == Some(Fill(prefix).value[k]);
      assert pieces[i] == prefix[i];
      forall j | i < j < |pieces|
        ensures !Sets(pieces[j], k)
      {
        if j < |prefix| {
          assert pieces[j] == prefix[j];
        }
      }
      assert LastSet(pieces, i, k);
    }
  }
}
