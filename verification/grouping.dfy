/** The conversation list of the admin viewer's home page
    (`displayConversations` in admin-app/app.js): rows are grouped by `id`
    in a `Map`, each group gets the latest timestamp among its rows, and the
    groups are sorted by that timestamp, newest first. */
module Grouping {
  import opened Wrappers
  import opened Rows
  import Sorting

  /** The `Map` from conversation id to rows: its keys in insertion order,
      and the rows pushed under each key. */
  datatype GroupMap = GroupMap(keys: seq<string>, groups: map<string, seq<Row>>)

  predicate Distinct(keys: seq<string>) {
    forall i, j :: 0 <= i < j < |keys| ==> keys[i] != keys[j]
  }

  /** One step of the `forEach`: create the group on the first row of an
      id, then push the row onto its group. */
  function AddRow(m: GroupMap, row: Row): GroupMap {
    if row.id in m.groups then m.(groups := m.groups[row.id := m.groups[row.id] + [row]])
    else GroupMap(m.keys + [row.id], m.groups[row.id := [row]])
  }

  /** The sum of the group sizes over `keys`. */
  function TotalSize(keys: seq<string>, groups: map<string, seq<Row>>): nat
    requires forall k :: k in keys ==> k in groups
  {
    if |keys| == 0 then 0 else |groups[keys[0]]| + TotalSize(keys[1..], groups)
  }

  /** The ids that occur in `rows`. */
  function Ids(rows: seq<Row>): set<string> {
    if |rows| == 0 then {} else Ids(rows[..|rows| - 1]) + {rows[|rows| - 1].id}
  }

  /** Every row's id is among the ids, and every id is some row's. */
  lemma {:induction false} IdsExactly(rows: seq<Row>, k: string)
    ensures k in Ids(rows) <==> exists q :: 0 <= q < |rows| && rows[q].id == k
  {
    if |rows| > 0 {
      var prefix := rows[..|rows| - 1];
      IdsExactly(prefix, k);
      if k in Ids(prefix) {
        var q :| 0 <= q < |prefix| && prefix[q].id == k;
        assert rows[q].id == k;
      } else if exists q :: 0 <= q < |rows| && rows[q].id == k {
        var q :| 0 <= q < |rows| && rows[q].id == k;
        if q < |prefix| {
          assert prefix[q].id == k;
        }
      }
    }
  }

  /** The position of the first row with id `k`. */
  function FirstIndex(rows: seq<Row>, k: string): (p: nat)
    requires k in Ids(rows)
    ensures p < |rows| && rows[p].id == k
    ensures forall q :: 0 <= q < p ==> rows[q].id != k
  {
    var prefix := rows[..|rows| - 1];
    assert forall q :: 0 <= q < |prefix| ==> prefix[q] == rows[q];
    IdsExactly(prefix, k);
    if k in Ids(prefix) then FirstIndex(prefix, k) else |rows| - 1
  }

  /** The keys of `m` are the ids that occur in `rows`, each once, and
      each has a group. */
  ghost predicate KeysOf(m: GroupMap, rows: seq<Row>) {
    && Distinct(m.keys)
    && m.groups.Keys == Ids(rows)
    && (forall k :: k in m.keys <==> k in m.groups)
  }

  /** Each group holds exactly the rows with its id, in arrival order. */
  ghost predicate ContentsOf(m: GroupMap, rows: seq<Row>) {
    forall k :: k in m.groups ==> m.groups[k] == WithId(rows, k) && |m.groups[k]| > 0
  }

  /** The keys are in order of first occurrence. */
  ghost predicate OrderOf(m: GroupMap, rows: seq<Row>) {
    forall i, j :: 0 <= i < j < |m.keys| && m.keys[i] in Ids(rows) && m.keys[j] in Ids(rows) ==>
      FirstIndex(rows, m.keys[i]) < FirstIndex(rows, m.keys[j])
  }

  /** The group sizes add up to the number of rows. */
  ghost predicate SizeOf(m: GroupMap, rows: seq<Row>) {
    (forall k :: k in m.keys ==> k in m.groups) && TotalSize(m.keys, m.groups) == |rows|
  }

  /** `m` is the map the `forEach` has built after the rows `rows`. */
  ghost predicate GroupsOf(m: GroupMap, rows: seq<Row>) {
    KeysOf(m, rows) && ContentsOf(m, rows) && OrderOf(m, rows) && SizeOf(m, rows)
  }

  /** The map after the `forEach` over all rows partitions them. */
  function GroupRows(rows: seq<Row>): (m: GroupMap)
    ensures GroupsOf(m, rows)
  {
    if |rows| == 0 then GroupMap([], map[])
    else
      var m := GroupRows(rows[..|rows| - 1]);
      AddRowKeeps(m, rows);
      AddRow(m, rows[|rows| - 1])
  }

  /** One step of the `forEach` keeps the partition. */
  lemma AddRowKeeps(m: GroupMap, rows: seq<Row>)
    requires |rows| > 0 && GroupsOf(m, rows[..|rows| - 1])
    ensures GroupsOf(AddRow(m, rows[|rows| - 1]), rows)
  {
    AddRowKeys(m, rows);
    AddRowContents(m, rows);
    AddRowOrder(m, rows);
    AddRowTotal(m, rows);
  }

  lemma AddRowKeys(m: GroupMap, rows: seq<Row>)
    requires |rows| > 0 && KeysOf(m, rows[..|rows| - 1])
    ensures KeysOf(AddRow(m, rows[|rows| - 1]), rows)
  {
    var row := rows[|rows| - 1];
    var m' := AddRow(m, row);
    assert Ids(rows) == Ids(rows[..|rows| - 1]) + {row.id};
    assert m'.groups.Keys == m.groups.Keys + {row.id};
    if row.id !in m.groups {
      forall k
        ensures k in m'.keys <==> k in m'.groups
      {
        assert k in m'.keys <==> k in m.keys || k == row.id;
      }
      forall i, j | 0 <= i < j < |m'.keys|
        ensures m'.keys[i] != m'.keys[j]
      {
        if j == |m.keys| {
          assert m.keys[i] in m.keys;
        }
      }
    }
  }

  lemma AddRowContents(m: GroupMap, rows: seq<Row>)
    requires |rows| > 0 && KeysOf(m, rows[..|rows| - 1]) && ContentsOf(m, rows[..|rows| - 1])
    ensures ContentsOf(AddRow(m, rows[|rows| - 1]), rows)
  {
    var prefix := rows[..|rows| - 1];
    var row := rows[|rows| - 1];
    var m' := AddRow(m, row);
    forall k | k in m'.groups
      ensures m'.groups[k] == WithId(rows, k) && |m'.groups[k]| > 0
    {
      assert WithId(rows, k) == WithId(prefix, k) + (if row.id == k then [row] else []);
      if k != row.id {
        assert m'.groups[k] == m.groups[k];
      } else if k in m.groups {
        assert m'.groups[k] == m.groups[k] + [row];
      } else {
        WithIdNone(prefix, k);
        assert m'.groups[k] == [row];
      }
    }
  }

  /** No row has an id outside `Ids`, so its filter is empty. */
  lemma {:induction false} WithIdNone(rows: seq<Row>, k: string)
    requires k !in Ids(rows)
    ensures WithId(rows, k) == []
  {
    if |rows| > 0 {
      WithIdNone(rows[..|rows| - 1], k);
    }
  }

  lemma AddRowOrder(m: GroupMap, rows: seq<Row>)
    requires |rows| > 0 && KeysOf(m, rows[..|rows| - 1]) && OrderOf(m, rows[..|rows| - 1])
    ensures OrderOf(AddRow(m, rows[|rows| - 1]), rows)
  {
    var prefix := rows[..|rows| - 1];
    var row := rows[|rows| - 1];
    var m' := AddRow(m, row);
    forall i, j | 0 <= i < j < |m'.keys| && m'.keys[i] in Ids(rows) && m'.keys[j] in Ids(rows)
      ensures FirstIndex(rows, m'.keys[i]) < FirstIndex(rows, m'.keys[j])
    {
      assert m'.keys[i] == m.keys[i] && m.keys[i] in m.keys;
      assert m.keys[i] in Ids(prefix);
      assert FirstIndex(rows, m.keys[i]) == FirstIndex(prefix, m.keys[i]);
      if j < |m.keys| {
        assert m'.keys[j] == m.keys[j] && m.keys[j] in m.keys;
        assert m.keys[j] in Ids(prefix);
      } else {
        assert m'.keys[j] == row.id && row.id !in Ids(prefix);
      }
    }
  }

  lemma AddRowTotal(m: GroupMap, rows: seq<Row>)
    requires |rows| > 0 && KeysOf(m, rows[..|rows| - 1]) && SizeOf(m, rows[..|rows| - 1])
    ensures SizeOf(AddRow(m, rows[|rows| - 1]), rows)
  {
    var row := rows[|rows| - 1];
    if row.id in m.groups {
      TotalSizeGrow(m.keys, m.groups, row.id, row);
    } else {
      TotalSizeAppend(m.keys, m.groups[row.id := [row]], row.id);
      TotalSizeOther(m.keys, m.groups, row.id, [row]);
    }
  }

  lemma {:induction false} TotalSizeAppend(keys: seq<string>, groups: map<string, seq<Row>>, k: string)
    requires forall x :: x in keys ==> x in groups
    requires k in groups
    ensures TotalSize(keys + [k], groups) == TotalSize(keys, groups) + |groups[k]|
    decreases |keys|
  {
    if |keys| > 0 {
      assert (keys + [k])[1..] == keys[1..] + [k];
      TotalSizeAppend(keys[1..], groups, k);
    }
  }

  /** Updating a key outside `keys` leaves their total alone. */
  lemma {:induction false} TotalSizeOther(keys: seq<string>, groups: map<string, seq<Row>>, k: string, g: seq<Row>)
    requires forall x :: x in keys ==> x in groups
    requires k !in keys
    ensures TotalSize(keys, groups[k := g]) == TotalSize(keys, groups)
    decreases |keys|
  {
    if |keys| > 0 {
      TotalSizeOther(keys[1..], groups, k, g);
    }
  }

  /** Pushing a row onto the group of a key that occurs once in `keys` adds one to the total. */
  lemma {:induction false} TotalSizeGrow(keys: seq<string>, groups: map<string, seq<Row>>, k: string, row: Row)
    requires forall x :: x in keys ==> x in groups
    requires Distinct(keys) && k in keys
    ensures TotalSize(keys, groups[k := groups[k] + [row]]) == TotalSize(keys, groups) + 1
    decreases |keys|
  {
    if keys[0] == k {
      assert k !in keys[1..];
      TotalSizeOther(keys[1..], groups, k, groups[k] + [row]);
    } else {
      assert k in keys[1..];
      TotalSizeGrow(keys[1..], groups, k, row);
    }
  }

  /** A conversation of the list: its id, its rows, and the latest timestamp
      among them. */
  datatype Conversation = Conversation(id: string, messages: seq<Row>, latestTs: int)

  /** The timestamp a row contributes: unparseable dates count as 0. */
  function TsOrZero(r: Row): int {
    r.createdAt.GetOr(0)
  }

  /** `Math.max(...)` over the timestamps of a non-empty group. */
  function LatestTs(ms: seq<Row>): (t: int)
    requires |ms| > 0
    ensures forall i :: 0 <= i < |ms| ==> TsOrZero(ms[i]) <= t
    ensures exists i :: 0 <= i < |ms| && TsOrZero(ms[i]) == t
  {
    if |ms| == 1 then TsOrZero(ms[0])
    else
      var rest := LatestTs(ms[1..]);
      assert forall i :: 1 <= i < |ms| ==> ms[i] == ms[1..][i - 1];
      if TsOrZero(ms[0]) >= rest then TsOrZero(ms[0]) else rest
  }

  /** `Array.from(conversationMap.entries()).map(...)`. */
  function Entries(keys: seq<string>, groups: map<string, seq<Row>>): (cs: seq<Conversation>)
    requires forall k :: k in keys ==> k in groups && |groups[k]| > 0
    ensures |cs| == |keys|
    ensures forall i :: 0 <= i < |cs| ==>
      cs[i] == Conversation(keys[i], groups[keys[i]], LatestTs(groups[keys[i]]))
  {
    if |keys| == 0 then []
    else [Conversation(keys[0], groups[keys[0]], LatestTs(groups[keys[0]]))] + Entries(keys[1..], groups)
  }

  /** The sort key of `(a, b) => b.latestTs - a.latestTs`: descending timestamp. */
  function NewestFirst(c: Conversation): int {
    -c.latestTs
  }

  /** The conversations of a group map, newest first. */
  function Conversations(m: GroupMap): seq<Conversation>
    requires forall k :: k in m.keys ==> k in m.groups && |m.groups[k]| > 0
  {
    Sorting.Sort(Entries(m.keys, m.groups), NewestFirst)
  }

  /** The list of conversations in display order. */
  function ConversationList(rows: seq<Row>): seq<Conversation> {
    Conversations(GroupRows(rows))
  }

  /** The sum of the sizes of the conversations. */
  function SumSizes(cs: seq<Conversation>): nat {
    if |cs| == 0 then 0 else |cs[0].messages| + SumSizes(cs[1..])
  }

  /** The conversation list is ordered newest first: timestamps never
      increase along the list. */
  lemma ConversationListOrdered(rows: seq<Row>)
    ensures var cs := ConversationList(rows);
      forall i, j :: 0 <= i < j < |cs| ==> cs[i].latestTs >= cs[j].latestTs
  {
    ListOrdered(ConversationList(rows));
  }

  /** Each conversation holds exactly the rows of its id, in arrival order,
      and carries the latest timestamp among them. */
  lemma ConversationListContents(rows: seq<Row>)
    ensures var cs := ConversationList(rows);
      forall i :: 0 <= i < |cs| ==>
        && cs[i].messages == WithId(rows, cs[i].id)
        && |cs[i].messages| > 0
        && cs[i].latestTs == LatestTs(cs[i].messages)
  {
    var m := GroupRows(rows);
    ListContents(rows, m, Entries(m.keys, m.groups), Conversations(m));
  }

  /** Each id has one conversation. */
  lemma ConversationListDistinct(rows: seq<Row>)
    ensures var cs := ConversationList(rows);
      forall i, j :: 0 <= i < j < |cs| ==> cs[i].id != cs[j].id
  {
    var m := GroupRows(rows);
    DistinctAfterPermutation(Entries(m.keys, m.groups), Conversations(m), m.keys);
  }

  /** Every row's id has a conversation. */
  lemma ConversationListCovers(rows: seq<Row>)
    ensures var cs := ConversationList(rows);
      forall q :: 0 <= q < |rows| ==> exists i :: 0 <= i < |cs| && cs[i].id == rows[q].id
  {
    var m := GroupRows(rows);
    var cs := Conversations(m);
    ListCovers(rows, m, Entries(m.keys, m.groups), cs);
    assert ConversationList(rows) == cs;
  }

  /** The conversation sizes add up to the number of rows: together with the
      two lemmas above, no row is lost or counted twice. */
  lemma ConversationListSize(rows: seq<Row>)
    ensures SumSizes(ConversationList(rows)) == |rows|
  {
    var m := GroupRows(rows);
    EntriesSize(m.keys, m.groups);
    SumSizesPermutation(Entries(m.keys, m.groups), Conversations(m));
  }

  lemma ListOrdered(cs: seq<Conversation>)
    requires Sorting.SortedBy(cs, NewestFirst)
    ensures forall i, j :: 0 <= i < j < |cs| ==> cs[i].latestTs >= cs[j].latestTs
  {
    forall i, j | 0 <= i < j < |cs|
      ensures cs[i].latestTs >= cs[j].latestTs
    {
      assert NewestFirst(cs[i]) <= NewestFirst(cs[j]);
    }
  }

  lemma ListContents(rows: seq<Row>, m: GroupMap, es: seq<Conversation>, cs: seq<Conversation>)
    requires GroupsOf(m, rows)
    requires es == Entries(m.keys, m.groups)
    requires multiset(cs) == multiset(es)
    ensures forall i :: 0 <= i < |cs| ==>
      && cs[i].messages == WithId(rows, cs[i].id)
      && |cs[i].messages| > 0
      && cs[i].latestTs == LatestTs(cs[i].messages)
  {
    forall i | 0 <= i < |cs|
      ensures cs[i].messages == WithId(rows, cs[i].id)
      ensures |cs[i].messages| > 0 && cs[i].latestTs == LatestTs(cs[i].messages)
    {
      assert cs[i] in multiset(es);
      var a :| 0 <= a < |es| && es[a] == cs[i];
      assert m.keys[a] in m.keys;
    }
  }

  lemma ListCovers(rows: seq<Row>, m: GroupMap, es: seq<Conversation>, cs: seq<Conversation>)
    requires GroupsOf(m, rows)
    requires es == Entries(m.keys, m.groups)
    requires multiset(cs) == multiset(es)
    ensures forall q :: 0 <= q < |rows| ==> exists i :: 0 <= i < |cs| && cs[i].id == rows[q].id
  {
    forall q | 0 <= q < |rows|
      ensures exists i :: 0 <= i < |cs| && cs[i].id == rows[q].id
    {
      IdsExactly(rows, rows[q].id);
      assert rows[q].id in m.keys;
      var a :| 0 <= a < |m.keys| && m.keys[a] == rows[q].id;
      assert es[a] in multiset(cs);
      var i :| 0 <= i < |cs| && cs[i] == es[a];
    }
  }

  lemma {:induction false} EntriesSize(keys: seq<string>, groups: map<string, seq<Row>>)
    requires forall k :: k in keys ==> k in groups && |groups[k]| > 0
    ensures SumSizes(Entries(keys, groups)) == TotalSize(keys, groups)
    decreases |keys|
  {
    if |keys| > 0 {
      EntriesSize(keys[1..], groups);
      assert Entries(keys, groups)[1..] == Entries(keys[1..], groups);
    }
  }

  /** Entries built from distinct keys keep distinct ids under any permutation. */
  lemma DistinctAfterPermutation(es: seq<Conversation>, cs: seq<Conversation>, keys: seq<string>)
    requires Distinct(keys) && |es| == |keys|
    requires forall a :: 0 <= a < |es| ==> es[a].id == keys[a]
    requires multiset(cs) == multiset(es)
    ensures forall i, j :: 0 <= i < j < |cs| ==> cs[i].id != cs[j].id
  {
    forall i, j | 0 <= i < j < |cs| && cs[i].id == cs[j].id
      ensures false
    {
      assert cs[i] in multiset(es);
      assert cs[j] in multiset(es);
      var a :| 0 <= a < |es| && es[a] == cs[i];
      var b :| 0 <= b < |es| && es[b] == cs[j];
      assert a == b;
      CountTwo(cs, i, j);
      CountAtMostOne(es, keys, cs[i]);
    }
  }

  /** A value at two positions is counted twice. */
  lemma CountTwo<T>(s: seq<T>, i: nat, j: nat)
    requires i < j < |s| && s[i] == s[j]
    ensures multiset(s)[s[i]] >= 2
  {
    assert s == s[..j] + [s[j]] + s[j + 1..];
    assert s[i] in s[..j];
    assert multiset(s[..j])[s[i]] >= 1;
  }

  /** Conversations with distinct ids are each counted once. */
  lemma {:induction false} CountAtMostOne(es: seq<Conversation>, keys: seq<string>, x: Conversation)
    requires Distinct(keys) && |es| == |keys|
    requires forall a :: 0 <= a < |es| ==> es[a].id == keys[a]
    ensures multiset(es)[x] <= 1
    decreases |es|
  {
    if |es| > 0 {
      assert es == [es[0]] + es[1..];
      CountAtMostOne(es[1..], keys[1..], x);
      if es[0] == x {
        forall b | 0 <= b < |es[1..]|
          ensures es[1..][b] != x
        {
          assert keys[b + 1] != keys[0];
        }
      }
    }
  }

  lemma {:induction false} SumSizesConcat(a: seq<Conversation>, b: seq<Conversation>)
    ensures SumSizes(a + b) == SumSizes(a) + SumSizes(b)
    decreases |a|
  {
    if |a| > 0 {
      assert (a + b)[1..] == a[1..] + b;
      SumSizesConcat(a[1..], b);
    } else {
      assert a + b == b;
    }
  }

  /** The total size depends only on which conversations there are. */
  lemma {:induction false} SumSizesPermutation(a: seq<Conversation>, b: seq<Conversation>)
    requires multiset(a) == multiset(b)
    ensures SumSizes(a) == SumSizes(b)
    decreases |a|
  {
    if |a| == 0 {
      assert |b| == |multiset(b)| == 0;
    } else {
      var k := PermutationTail(a, b);
      SumSizesPermutation(a[1..], b[..k] + b[k + 1..]);
      SumSizesRemove(b, k);
    }
  }

  /** Removing the head of `a` and its match in `b` keeps them permutations. */
  lemma PermutationTail<T>(a: seq<T>, b: seq<T>) returns (k: nat)
    requires |a| > 0 && multiset(a) == multiset(b)
    ensures k < |b| && b[k] == a[0]
    ensures multiset(a[1..]) == multiset(b[..k] + b[k + 1..])
  {
    assert a == [a[0]] + a[1..];
    assert multiset(a[1..]) == multiset(a) - multiset{a[0]};
    assert a[0] in b by {
      assert a[0] in multiset(b);
    }
    k :| 0 <= k < |b| && b[k] == a[0];
    MultisetRemove(b, k);
  }

  lemma MultisetRemove<T>(s: seq<T>, k: nat)
    requires k < |s|
    ensures multiset(s[..k] + s[k + 1..]) == multiset(s) - multiset{s[k]}
  {
    assert s == s[..k] + [s[k]] + s[k + 1..];
  }

  lemma SumSizesRemove(b: seq<Conversation>, k: nat)
    requires k < |b|
    ensures SumSizes(b) == |b[k].messages| + SumSizes(b[..k] + b[k + 1..])
  {
    assert b == b[..k] + ([b[k]] + b[k + 1..]);
    SumSizesConcat(b[..k], [b[k]] + b[k + 1..]);
    SumSizesConcat(b[..k], b[k + 1..]);
    assert ([b[k]] + b[k + 1..])[1..] == b[k + 1..];
  }
}
