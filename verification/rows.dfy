/** The message rows the admin viewer receives from the data endpoint
    (admin-app/app.js), and the per-thread facts derived from a set of rows:
    the rows of one thread, its ordering by `row_num`, and its type. */
module Rows {
  import opened Wrappers
  import Sorting

  /** The `processed` field as the viewer tests it (`processed !== null`):
      JSON `null`, a missing field (`undefined`), or any other value. */
  datatype Processed = Null | Missing | Present

  /** One row. `createdAt` is `new Date(created_at).getTime()` in
      milliseconds, `None` when that is `NaN`; date parsing is outside the
      model. `theType` is kept as the string the backend sends. */
  datatype Row = Row(
    id: string,
    rowNum: int,
    createdAt: Option<int>,
    body: string,
    theType: string,
    processed: Processed)

  /** `allData.filter(row => row.id === id)`: the rows of one thread, in
      the order they arrived. */
  function WithId(rows: seq<Row>, id: string): seq<Row> {
    if |rows| == 0 then []
    else WithId(rows[..|rows| - 1], id) + (if rows[|rows| - 1].id == id then [rows[|rows| - 1]] else [])
  }

  /** The filter keeps every row with the id, as often as it occurs, and
      nothing else. */
  lemma {:induction false} WithIdExactly(rows: seq<Row>, id: string)
    ensures |WithId(rows, id)| <= |rows|
    ensures forall x :: multiset(WithId(rows, id))[x] == (if x.id == id then multiset(rows)[x] else 0)
  {
    if |rows| > 0 {
      var prefix, last := rows[..|rows| - 1], rows[|rows| - 1];
      WithIdExactly(prefix, id);
      assert rows == prefix + [last];
      assert multiset(rows) == multiset(prefix) + multiset{last};
      var tail := if last.id == id then [last] else [];
      assert multiset(WithId(rows, id)) == multiset(WithId(prefix, id)) + multiset(tail);
    }
  }

  /** A row is in the filter exactly when it is one of the rows and has the id. */
  lemma WithIdMember(rows: seq<Row>, id: string, x: Row)
    ensures x in WithId(rows, id) <==> x in rows && x.id == id
  {
    WithIdExactly(rows, id);
    assert x in WithId(rows, id) <==> x in multiset(WithId(rows, id));
    assert x in rows <==> x in multiset(rows);
  }

  /** Every row of the filter has the id. */
  lemma WithIdHasId(rows: seq<Row>, id: string)
    ensures forall i :: 0 <= i < |WithId(rows, id)| ==> WithId(rows, id)[i].id == id
  {
    WithIdExactly(rows, id);
    forall i | 0 <= i < |WithId(rows, id)|
      ensures WithId(rows, id)[i].id == id
    {
      var x := WithId(rows, id)[i];
      assert multiset(WithId(rows, id))[x] > 0;
    }
  }

  /** A row with the id makes the filter non-empty. */
  lemma WithIdNonEmpty(rows: seq<Row>, q: nat)
    requires q < |rows|
    ensures |WithId(rows, rows[q].id)| > 0
  {
    WithIdExactly(rows, rows[q].id);
    assert multiset(rows)[rows[q]] > 0;
  }

  /** The filter is empty exactly when no row has the id. */
  lemma WithIdEmpty(rows: seq<Row>, id: string)
    ensures |WithId(rows, id)| == 0 <==> forall q :: 0 <= q < |rows| ==> rows[q].id != id
  {
    var ws := WithId(rows, id);
    if |ws| > 0 {
      WithIdExactly(rows, id);
      WithIdHasId(rows, id);
      assert multiset(ws)[ws[0]] > 0;
      assert ws[0] in multiset(rows);
    } else if q :| 0 <= q < |rows| && rows[q].id == id {
      WithIdNonEmpty(rows, q);
    }
  }

  /** The row number, the sort key of `messages.sort((a, b) => a.row_num - b.row_num)`. */
  function RowNum(r: Row): int {
    r.rowNum
  }

  /** The rows of a thread in ascending `row_num` order (stable). */
  function ByRowNum(rows: seq<Row>): (s: seq<Row>)
    ensures |s| == |rows|
    ensures multiset(s) == multiset(rows)
    ensures forall i, j :: 0 <= i < j < |s| ==> s[i].rowNum <= s[j].rowNum
  {
    var s := Sorting.Sort(rows, RowNum);
    assert forall i, j :: 0 <= i < j < |s| ==> RowNum(s[i]) <= RowNum(s[j]);
    s
  }

  /** After sorting, the first row has the smallest row number and the last
      row the largest: the buffer row and the latest message of the thread. */
  lemma ByRowNumEnds(rows: seq<Row>)
    requires |rows| > 0
    ensures var s := ByRowNum(rows);
      && s[0] in rows && s[|s| - 1] in rows
      && (forall i :: 0 <= i < |rows| ==> s[0].rowNum <= rows[i].rowNum <= s[|s| - 1].rowNum)
  {
    var s := ByRowNum(rows);
    assert s[0] in multiset(s);
    assert s[|s| - 1] in multiset(s);
    forall i | 0 <= i < |rows|
      ensures s[0].rowNum <= rows[i].rowNum <= s[|s| - 1].rowNum
    {
      assert rows[i] in multiset(s);
      var j :| 0 <= j < |s| && s[j] == rows[i];
    }
  }

  /** `messages.some(m => m.theType === t)`. */
  function AnyOfType(ms: seq<Row>, t: string): (b: bool)
    ensures b <==> exists i :: 0 <= i < |ms| && ms[i].theType == t
  {
    if |ms| == 0 then false
    else ms[0].theType == t || AnyOfType(ms[1..], t)
  }

  /** The type of a thread. */
  datatype Kind = Email | IMessage | Sms

  /** Email when any row is an email, otherwise iMessage when any row is an
      iMessage, otherwise SMS: the fixed precedence both views apply. */
  function KindOf(ms: seq<Row>): (k: Kind)
    ensures k == Email <==> exists i :: 0 <= i < |ms| && ms[i].theType == "email"
    ensures k == IMessage <==>
      && (forall i :: 0 <= i < |ms| ==> ms[i].theType != "email")
      && (exists i :: 0 <= i < |ms| && ms[i].theType == "iMessage")
    ensures k == Sms <==> forall i :: 0 <= i < |ms| ==> ms[i].theType != "email" && ms[i].theType != "iMessage"
  {
    if AnyOfType(ms, "email") then Email
    else if AnyOfType(ms, "iMessage") then IMessage
    else Sms
  }

  /** The type depends only on which rows there are, not on their order. */
  lemma KindOfPermutation(a: seq<Row>, b: seq<Row>)
    requires multiset(a) == multiset(b)
    ensures KindOf(a) == KindOf(b)
  {
    forall t: string | AnyOfType(a, t)
      ensures AnyOfType(b, t)
    {
      var i :| 0 <= i < |a| && a[i].theType == t;
      assert a[i] in multiset(b);
      var j :| 0 <= j < |b| && b[j] == a[i];
    }
    forall t: string | AnyOfType(b, t)
      ensures AnyOfType(a, t)
    {
      var i :| 0 <= i < |b| && b[i].theType == t;
      assert b[i] in multiset(a);
      var j :| 0 <= j < |a| && a[j] == b[i];
    }
  }

  /** The badge text of the conversation list. */
  function BadgeText(k: Kind): string {
    match k
    case Email => "Email"
    case IMessage => "iMessage"
    case Sms => "SMS"
  }

  /** The CSS class of the badge, which is also the value of
      `currentConversationType` in the thread view. */
  function TypeName(k: Kind): string {
    match k
    case Email => "email"
    case IMessage => "imessage"
    case Sms => "sms"
  }

  /** The `theType` sent with a reply: `imessage` is mapped back to
      `iMessage`, the other names are sent as they are. */
  function ReplyType(k: Kind): string {
    if TypeName(k) == "imessage" then "iMessage" else TypeName(k)
  }
}
