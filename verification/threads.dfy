/** The thread view and the conversation list items of the admin viewer
    (`showConversation` and the per-conversation part of
    `displayConversations` in admin-app/app.js), without the DOM: the email
    header read from the first row, the role, tag and text of each bubble,
    and what each list entry shows. */
module Threads {
  import opened Wrappers
  import opened Text
  import opened Rows
  import HtmlEscape
  import RelativeTime
  import Grouping

  /** The two header fields an email thread carries in its first row. */
  datatype Field = Subject | From

  /** The line prefix that introduces a field. */
  function Prefix(f: Field): string {
    match f
    case Subject => "Email subject:"
    case From => "From address:"
  }

  /** The text shown when no line carries the field. */
  function Placeholder(f: Field): string {
    match f
    case Subject => "No subject"
    case From => "Unknown sender"
  }

  datatype Header = Header(subject: string, from: string) {
    function Get(f: Field): string {
      match f
      case Subject => subject
      case From => from
    }

    function Set(f: Field, v: string): (h: Header)
      ensures h.Get(f) == v
      ensures forall g :: g != f ==> h.Get(g) == Get(g)
    {
      match f
      case Subject => this.(subject := v)
      case From => this.(from := v)
    }
  }

  const Defaults := Header(Placeholder(Subject), Placeholder(From))

  /** `line.replace(prefix, '').trim()`. */
  function Remainder(line: string, f: Field): string {
    Trim(ReplaceFirst(line, Prefix(f), ""))
  }

  /** One iteration of the `forEach` over the body lines. */
  function HeaderStep(h: Header, line: string): Header {
    if StartsWith(line, Prefix(Subject)) then h.Set(Subject, Remainder(line, Subject))
    else if StartsWith(line, Prefix(From)) then h.Set(From, Remainder(line, From))
    else h
  }

  /** The `forEach` over all lines, starting from the placeholders. */
  function ScanHeader(lines: seq<string>): Header {
    if |lines| == 0 then Defaults
    else HeaderStep(ScanHeader(lines[..|lines| - 1]), lines[|lines| - 1])
  }

  /** Subject and sender of an email thread, read from its first row's body. */
  function EmailHeader(body: string): Header {
    ScanHeader(Split(body, '\n'))
  }

  /** No line starts with both prefixes, so the `else if` never hides a field. */
  lemma PrefixesExclusive(line: string)
    ensures !(StartsWith(line, Prefix(Subject)) && StartsWith(line, Prefix(From)))
  {
    if StartsWith(line, Prefix(Subject)) {
      assert line[0] == 'E';
    }
  }

  /** Line `i` is the last one that starts with the prefix of `f`. */
  predicate LastWith(lines: seq<string>, f: Field, i: int) {
    && 0 <= i < |lines|
    && StartsWith(lines[i], Prefix(f))
    && forall j :: i < j < |lines| ==> !StartsWith(lines[j], Prefix(f))
  }

  /** Each field is the placeholder when no line carries it, and otherwise
      the trimmed rest of the LAST line that does: later lines overwrite
      earlier ones. */
  lemma ScanHeaderField(lines: seq<string>, f: Field)
    ensures (forall i :: 0 <= i < |lines| ==> !StartsWith(lines[i], Prefix(f))) ==>
      ScanHeader(lines).Get(f) == Placeholder(f)
    ensures forall i :: LastWith(lines, f, i) ==>
      ScanHeader(lines).Get(f) == Trim(lines[i][|Prefix(f)|..])
  {
    if forall i :: 0 <= i < |lines| ==> !StartsWith(lines[i], Prefix(f)) {
      ScanHeaderPlaceholder(lines, f);
    }
    forall i | LastWith(lines, f, i)
      ensures ScanHeader(lines).Get(f) == Trim(lines[i][|Prefix(f)|..])
    {
      ScanHeaderLast(lines, f, i);
    }
  }

  /** No line carrying the field leaves its placeholder. */
  lemma {:induction false} ScanHeaderPlaceholder(lines: seq<string>, f: Field)
    requires forall i :: 0 <= i < |lines| ==> !StartsWith(lines[i], Prefix(f))
    ensures ScanHeader(lines).Get(f) == Placeholder(f)
  {
    if |lines| > 0 {
      ScanHeaderPlaceholder(lines[..|lines| - 1], f);
      ScanHeaderKeeps(lines, f);
    }
  }

  /** The last line carrying the field decides it. */
  lemma {:induction false} ScanHeaderLast(lines: seq<string>, f: Field, i: int)
    requires LastWith(lines, f, i)
    ensures ScanHeader(lines).Get(f) == Trim(lines[i][|Prefix(f)|..])
    decreases |lines|, 1
  {
    if i == |lines| - 1 {
      ScanHeaderSets(lines, f);
    } else {
      ScanHeaderEarlier(lines, f, i);
    }
  }

  /** When that line is not the last one, the later lines leave the field
      as the earlier ones set it. */
  lemma {:induction false} ScanHeaderEarlier(lines: seq<string>, f: Field, i: int)
    requires LastWith(lines, f, i) && i < |lines| - 1
    ensures ScanHeader(lines).Get(f) == Trim(lines[i][|Prefix(f)|..])
    decreases |lines|, 0
  {
    var prefix := lines[..|lines| - 1];
    assert !StartsWith(lines[|lines| - 1], Prefix(f));
    assert prefix[i] == lines[i];
    assert LastWith(prefix, f, i);
    ScanHeaderLast(prefix, f, i);
    ScanHeaderKeeps(lines, f);
  }

  /** A last line carrying the field sets it to the line's trimmed rest. */
  lemma ScanHeaderSets(lines: seq<string>, f: Field)
    requires |lines| > 0 && StartsWith(lines[|lines| - 1], Prefix(f))
    ensures ScanHeader(lines).Get(f) == Trim(lines[|lines| - 1][|Prefix(f)|..])
  {
    var last := lines[|lines| - 1];
    PrefixesExclusive(last);
    ReplaceLeadingPrefix(last, Prefix(f));
    assert ScanHeader(lines).Get(f) == Remainder(last, f);
  }

  /** A last line not carrying the field leaves it as it was. */
  lemma ScanHeaderKeeps(lines: seq<string>, f: Field)
    requires |lines| > 0 && !StartsWith(lines[|lines| - 1], Prefix(f))
    ensures ScanHeader(lines).Get(f) == ScanHeader(lines[..|lines| - 1]).Get(f)
  {
    PrefixesExclusive(lines[|lines| - 1]);
  }

  /** A line that carries a header field. */
  predicate IsHeaderLine(line: string) {
    StartsWith(line, Prefix(Subject)) || StartsWith(line, Prefix(From))
  }

  /** `lines.filter(line => !line.startsWith(...) && !line.startsWith(...))`. */
  function BodyLines(lines: seq<string>): seq<string> {
    if |lines| == 0 then []
    else (if IsHeaderLine(lines[0]) then [] else [lines[0]]) + BodyLines(lines[1..])
  }

  /** The filter keeps every non-header line, as often as it occurs, and
      drops every header line; it works line by line, so the kept lines stay
      in their order: filtering a body cut in two anywhere is filtering the
      two parts. */
  lemma {:induction false} BodyLinesExactly(lines: seq<string>)
    ensures forall x :: multiset(BodyLines(lines))[x] == if IsHeaderLine(x) then 0 else multiset(lines)[x]
    ensures forall k :: 0 <= k <= |lines| ==> BodyLines(lines) == BodyLines(lines[..k]) + BodyLines(lines[k..])
  {
    BodyLinesCount(lines);
    forall k | 0 <= k <= |lines|
      ensures BodyLines(lines) == BodyLines(lines[..k]) + BodyLines(lines[k..])
    {
      BodyLinesCut(lines, k);
    }
  }

  lemma BodyLinesCut(lines: seq<string>, k: nat)
    requires k <= |lines|
    ensures BodyLines(lines) == BodyLines(lines[..k]) + BodyLines(lines[k..])
  {
    assert lines[..k] + lines[k..] == lines;
    BodyLinesConcat(lines[..k], lines[k..]);
  }

  /** How often each line survives the filter. */
  lemma {:induction false} BodyLinesCount(lines: seq<string>)
    ensures forall x :: multiset(BodyLines(lines))[x] == if IsHeaderLine(x) then 0 else multiset(lines)[x]
  {
    if |lines| > 0 {
      BodyLinesCount(lines[1..]);
      assert lines == [lines[0]] + lines[1..];
    }
  }

  /** Filtering a concatenation is concatenating the filtered parts. */
  lemma {:induction false} BodyLinesConcat(a: seq<string>, b: seq<string>)
    ensures BodyLines(a + b) == BodyLines(a) + BodyLines(b)
    decreases |a|
  {
    if |a| > 0 {
      assert (a + b)[0] == a[0];
      assert (a + b)[1..] == a[1..] + b;
      BodyLinesConcat(a[1..], b);
    } else {
      assert a + b == b;
    }
  }

  /** Lines without header prefixes pass through the filter unchanged. */
  lemma {:induction false} BodyLinesPlain(lines: seq<string>)
    requires forall i :: 0 <= i < |lines| ==> !IsHeaderLine(lines[i])
    ensures BodyLines(lines) == lines
  {
    if |lines| > 0 {
      BodyLinesPlain(lines[1..]);
    }
  }

  /** The content of the first row of an email thread: the body without its
      header lines, trimmed. */
  function EmailContent(body: string): string {
    Trim(Join(BodyLines(Split(body, '\n')), "\n"))
  }

  /** A body without header lines is only trimmed. */
  lemma EmailContentPlain(body: string)
    requires forall i :: 0 <= i < |Split(body, '\n')| ==> !IsHeaderLine(Split(body, '\n')[i])
    ensures EmailContent(body) == Trim(body)
  {
    BodyLinesPlain(Split(body, '\n'));
  }

  /** The side of a bubble: `user` on the left, `ai` on the right. */
  datatype Role = User | Ai

  const ClientTag := "Client: "
  const JordanTag := "Jordan: "
  const BabaTag := "Baba: "

  /** The role of a bubble. The first row of the thread is always `user`;
      any other row is `ai` exactly when its body starts with `Jordan: ` or
      `Baba: `, and `user` otherwise (`Client: ` or no prefix). */
  function RoleOf(body: string, isFirst: bool): (r: Role)
    ensures r == Ai <==> !isFirst && (StartsWith(body, JordanTag) || StartsWith(body, BabaTag))
  {
    TagsExclusive(body);
    if StartsWith(body, ClientTag) || isFirst then User
    else if StartsWith(body, JordanTag) || StartsWith(body, BabaTag) then Ai
    else User
  }

  /** A body that starts with `Client: ` starts with neither AI tag. */
  lemma TagsExclusive(body: string)
    ensures StartsWith(body, ClientTag) ==> !StartsWith(body, JordanTag) && !StartsWith(body, BabaTag)
  {
    if StartsWith(body, ClientTag) {
      assert body[0] == 'C';
    }
  }

  /** The text a bubble shows before escaping. */
  function DisplayBody(kind: Kind, body: string, isFirst: bool): string {
    if !isFirst then body
    else if kind == Email then EmailContent(body)
    else ""
  }

  /** One message bubble: its row number, side, the `baba` tag, the escaped
      text, and the timestamp (rendered in a fixed time zone, which is left
      out). */
  datatype Bubble = Bubble(rowNum: int, role: Role, baba: bool, text: string, createdAt: Option<int>)

  /** The bubble of row `m` in a thread whose smallest row number is
      `firstRowNum`. Every row with that row number counts as first. */
  function BubbleOf(kind: Kind, firstRowNum: int, m: Row): Bubble {
    var isFirst := m.rowNum == firstRowNum;
    Bubble(m.rowNum, RoleOf(m.body, isFirst), StartsWith(m.body, BabaTag),
      HtmlEscape.Escape(DisplayBody(kind, m.body, isFirst)), m.createdAt)
  }

  function Bubbles(kind: Kind, firstRowNum: int, ms: seq<Row>): (bs: seq<Bubble>)
    ensures |bs| == |ms|
    ensures forall i :: 0 <= i < |ms| ==> bs[i] == BubbleOf(kind, firstRowNum, ms[i])
  {
    if |ms| == 0 then [] else [BubbleOf(kind, firstRowNum, ms[0])] + Bubbles(kind, firstRowNum, ms[1..])
  }

  /** What the thread view shows: the thread's type, its title, the state of
      the AI checkbox, and the bubbles in row-number order. */
  datatype ThreadView = ThreadView(kind: Kind, title: string, aiReplying: bool, bubbles: seq<Bubble>)

  /** The title of an email thread: sender, an em dash, and the subject. */
  function EmailTitle(h: Header): string {
    h.from + " \U{2014} Subject: " + h.subject
  }

  /** The view `showConversation(id)` renders: `None` when no row has the
      id, and then nothing is rendered. What it records in the globals is
      `OpenThread`. */
  function ShowConversation(all: seq<Row>, id: string): Option<ThreadView> {
    var ms := ByRowNum(WithId(all, id));
    if |ms| == 0 then None
    else
      var kind := KindOf(ms);
      var title := if kind == Email then EmailTitle(EmailHeader(ms[0].body)) else id;
      Some(ThreadView(kind, title, ms[0].processed != Null, Bubbles(kind, ms[0].rowNum, ms)))
  }

  /** A thread view exists exactly when some row has the id. */
  lemma ShowConversationExists(all: seq<Row>, id: string)
    ensures ShowConversation(all, id).None? <==> forall q :: 0 <= q < |all| ==> all[q].id != id
  {
    Rows.WithIdEmpty(all, id);
  }

  /** The view's bubbles are the thread's rows in ascending row-number
      order; its type is the precedence rule applied to the thread's rows
      in any order, and the checkbox reflects the first row's `processed`. */
  lemma ShowConversationThread(all: seq<Row>, id: string)
    requires ShowConversation(all, id).Some?
    ensures var v := ShowConversation(all, id).value;
      var ms := ByRowNum(WithId(all, id));
      && |v.bubbles| == |WithId(all, id)|
      && v.kind == KindOf(WithId(all, id))
      && v.aiReplying == (ms[0].processed != Null)
      && (forall i, j :: 0 <= i < j < |v.bubbles| ==> v.bubbles[i].rowNum <= v.bubbles[j].rowNum)
  {
    KindOfPermutation(ByRowNum(WithId(all, id)), WithId(all, id));
  }

  /** Every bubble of the first row number is on the left and shows, for an
      email thread, the escaped body without its header lines, trimmed, and
      for any other thread nothing. Every later bubble is on the right
      exactly when its body starts with `Jordan: ` or `Baba: ` and shows the
      escaped body; every bubble carries the `baba` tag exactly when its
      body starts with `Baba: `. */
  lemma ShowConversationBubbles(all: seq<Row>, id: string)
    requires ShowConversation(all, id).Some?
    ensures var v := ShowConversation(all, id).value;
      var ms := ByRowNum(WithId(all, id));
      && |v.bubbles| == |ms|
      && (forall i :: 0 <= i < |ms| && ms[i].rowNum == ms[0].rowNum ==>
            && v.bubbles[i].role == User
            && v.bubbles[i].text == HtmlEscape.Escape(if v.kind == Email then EmailContent(ms[i].body) else ""))
      && (forall i :: 0 <= i < |ms| && ms[i].rowNum != ms[0].rowNum ==>
            && (v.bubbles[i].role == Ai <==> StartsWith(ms[i].body, JordanTag) || StartsWith(ms[i].body, BabaTag))
            && v.bubbles[i].text == HtmlEscape.Escape(ms[i].body))
      && (forall i :: 0 <= i < |ms| ==> (v.bubbles[i].baba <==> StartsWith(ms[i].body, BabaTag)))
  {
  }

  /** The relative date of a list entry: the label of the row with the
      largest row number, or `''` when that row has no timestamp. The
      current time is a parameter; `corrected` picks the label with the
      year bucket corrected instead of `formatRelativeTime` as written. */
  function DateLabel(ms: seq<Row>, now: int, corrected: bool): string {
    if |ms| == 0 then "" else RelativeTime.LabelOf(ms[|ms| - 1].createdAt, now, corrected)
  }

  /** An entry of the conversation list: an email entry shows sender and
      subject, any other entry the thread id and the iMessage/SMS badge. */
  datatype ListItem =
    | EmailItem(from: string, subject: string, date: string)
    | PhoneItem(id: string, date: string, kind: Kind)

  /** The entry of one conversation. */
  function ListItemOf(c: Grouping.Conversation, now: int, corrected: bool): (item: ListItem)
    ensures item.date == DateLabel(ByRowNum(c.messages), now, corrected)
  {
    var ms := ByRowNum(c.messages);
    var date := DateLabel(ms, now, corrected);
    var kind := KindOf(ms);
    if kind == Email then
      var h := EmailHeader(ms[0].body);
      EmailItem(h.from, h.subject, date)
    else PhoneItem(c.id, date, kind)
  }

  /** The entries of the conversation list, in list order. */
  function ListItems(cs: seq<Grouping.Conversation>, now: int, corrected: bool): (items: seq<ListItem>)
    ensures |items| == |cs|
    ensures forall i :: 0 <= i < |cs| ==> items[i] == ListItemOf(cs[i], now, corrected)
  {
    seq(|cs|, i requires 0 <= i < |cs| => ListItemOf(cs[i], now, corrected))
  }

  /** An entry is an email entry exactly when some row of the conversation
      is an email; otherwise it shows the thread id and its badge follows
      the iMessage-over-SMS rule. */
  lemma ListItemKind(c: Grouping.Conversation, now: int, corrected: bool)
    requires |c.messages| > 0
    ensures var item := ListItemOf(c, now, corrected);
      && (item.EmailItem? <==> exists i :: 0 <= i < |c.messages| && c.messages[i].theType == "email")
      && (item.PhoneItem? ==> item.id == c.id && item.kind == KindOf(c.messages))
  {
    KindOfPermutation(ByRowNum(c.messages), c.messages);
  }

  /** The home page built from the rows: one entry per conversation of the
      list, in list order. The entry of conversation `i` is an email entry
      exactly when some row with its id is an email, and then shows the
      header of its first row in row-number order; otherwise it shows the id
      and the badge of the rows with that id. Its date is that of the row
      with that id and the largest row number. */
  lemma ListItemsOfRows(rows: seq<Row>, now: int, corrected: bool)
    ensures var cs := Grouping.ConversationList(rows);
      var items := ListItems(cs, now, corrected);
      && |items| == |cs|
      && forall i :: 0 <= i < |cs| ==> EntryOfRows(rows, cs[i].id, items[i], now, corrected)
  {
    var cs := Grouping.ConversationList(rows);
    Grouping.ConversationListContents(rows);
    forall i | 0 <= i < |cs|
      ensures EntryOfRows(rows, cs[i].id, ListItemOf(cs[i], now, corrected), now, corrected)
    {
      EntryOfConversation(rows, cs[i], now, corrected);
    }
  }

  /** What the home page shows for thread `id`, stated over all rows: the
      thread is non-empty; the entry is an email entry exactly when some
      row with the id is an email, and then carries the sender and subject
      of the thread's first row; otherwise it shows the id with the
      iMessage-over-SMS badge; the date is the thread's date label. */
  ghost predicate EntryOfRows(rows: seq<Row>, id: string, item: ListItem, now: int, corrected: bool)
  {
    var ms := ByRowNum(WithId(rows, id));
    && |ms| > 0
    && (item.EmailItem? <==> exists q :: 0 <= q < |rows| && rows[q].id == id && rows[q].theType == "email")
    && (item.EmailItem? ==>
          item.from == EmailHeader(ms[0].body).from && item.subject == EmailHeader(ms[0].body).subject)
    && (item.PhoneItem? ==> item.id == id && item.kind == KindOf(WithId(rows, id)))
    && item.date == DateLabel(ms, now, corrected)
  }

  /** The entry of one conversation of the list, stated over all rows. */
  lemma EntryOfConversation(rows: seq<Row>, c: Grouping.Conversation, now: int, corrected: bool)
    requires c.messages == WithId(rows, c.id) && |c.messages| > 0
    ensures EntryOfRows(rows, c.id, ListItemOf(c, now, corrected), now, corrected)
  {
    ListItemKind(c, now, corrected);
    EmailRowOfId(rows, c.id);
    ByRowNumEnds(c.messages);
  }

  /** The rows with an id include an email exactly when some row of all
      with that id is one. */
  lemma EmailRowOfId(rows: seq<Row>, id: string)
    ensures (exists i :: 0 <= i < |WithId(rows, id)| && WithId(rows, id)[i].theType == "email")
      <==> exists q :: 0 <= q < |rows| && rows[q].id == id && rows[q].theType == "email"
  {
    var ms := WithId(rows, id);
    if i :| 0 <= i < |ms| && ms[i].theType == "email" {
      WithIdMember(rows, id, ms[i]);
      var q :| 0 <= q < |rows| && rows[q] == ms[i];
    }
    if q :| 0 <= q < |rows| && rows[q].id == id && rows[q].theType == "email" {
      WithIdMember(rows, id, rows[q]);
      var i :| 0 <= i < |ms| && ms[i] == rows[q];
    }
  }

  /** The date of an entry is that of the row with the largest row number
      (the last in row-number order): empty exactly when that row has no
      timestamp. */
  lemma ListItemDate(c: Grouping.Conversation, now: int, corrected: bool)
    requires |c.messages| > 0
    ensures var ms := ByRowNum(c.messages);
      ListItemOf(c, now, corrected).date == "" <==> ms[|ms| - 1].createdAt.None?
  {
    DateLabelEmpty(ByRowNum(c.messages), now, corrected);
  }

  /** A non-empty thread's date label is empty exactly when its last row
      has no timestamp. */
  lemma DateLabelEmpty(ms: seq<Row>, now: int, corrected: bool)
    requires |ms| > 0
    ensures DateLabel(ms, now, corrected) == "" <==> ms[|ms| - 1].createdAt.None?
  {
  }

  /** The list as written and the corrected list differ only in the date
      of a conversation whose latest row is 360 to 364 days old: `0y ago`
      as written, the month count `12mo ago` corrected. */
  lemma DateLabelCorrection(ms: seq<Row>, now: int)
    requires |ms| > 0 && ms[|ms| - 1].createdAt.Some?
    ensures var age := now - ms[|ms| - 1].createdAt.value;
      && (DateLabel(ms, now, false) != DateLabel(ms, now, true) <==> RelativeTime.InYearGap(age))
      && (RelativeTime.InYearGap(age) ==>
            DateLabel(ms, now, false) == "0y ago" && DateLabel(ms, now, true) == "12mo ago")
  {
    RelativeTime.LabelCorrection(ms[|ms| - 1].createdAt.value, now);
  }

  /** A reply `sendMessage` posts. `theType` is `None` when no thread type is
      set (JSON `null`). */
  datatype SendRequest = SendRequest(id: string, text: string, theType: Option<string>)

  /** The guard and payload of `sendMessage`: nothing is sent when the
      trimmed input is empty or no thread is open (`null` or an empty id).
      The reply carries the open thread's type, with `imessage` sent as
      `iMessage`. */
  function SendGuard(input: string, currentId: Option<string>, currentKind: Option<Kind>): (r: Option<SendRequest>)
    ensures r.Some? <==> Trim(input) != "" && currentId.Some? && currentId.value != ""
    ensures r.Some? ==>
      && r.value.id == currentId.value
      && r.value.text == Trim(input)
      && !IsSpace(r.value.text[0]) && !IsSpace(r.value.text[|r.value.text| - 1])
      && (r.value.theType.None? <==> currentKind.None?)
      && (currentKind == Some(Email) ==> r.value.theType == Some("email"))
      && (currentKind == Some(IMessage) ==> r.value.theType == Some("iMessage"))
      && (currentKind == Some(Sms) ==> r.value.theType == Some("sms"))
  {
    var text := Trim(input);
    if text == "" || currentId.None? || currentId.value == "" then None
    else
      var theType := match currentKind
        case None => None
        case Some(k) => Some(ReplyType(k));
      Some(SendRequest(currentId.value, text, theType))
  }

  /** The two globals the thread view keeps for the other handlers:
      `currentConversationId` and `currentConversationType`. */
  datatype ViewState = ViewState(currentId: Option<string>, currentKind: Option<Kind>)

  /** `showConversation(id)` with its effect on the globals: the id is
      recorded before the thread is looked up, and the type only once the
      thread has rows, so a missing thread keeps the previous type. */
  function OpenThread(st: ViewState, all: seq<Row>, id: string): (r: (ViewState, Option<ThreadView>))
    ensures r.1 == ShowConversation(all, id)
    ensures r.0.currentId == Some(id)
    ensures r.1.Some? ==> r.0.currentKind == Some(r.1.value.kind)
    ensures r.1.None? ==> r.0.currentKind == st.currentKind
  {
    var v := ShowConversation(all, id);
    match v
    case None => (st.(currentId := Some(id)), None)
    case Some(view) => (ViewState(Some(id), Some(view.kind)), v)
  }

  /** After a thread with rows is opened, a reply goes to that thread with
      the type of its rows, whatever was open before. */
  lemma OpenThenSend(st: ViewState, all: seq<Row>, id: string, input: string)
    requires ShowConversation(all, id).Some? && id != "" && Trim(input) != ""
    ensures var st' := OpenThread(st, all, id).0;
      SendGuard(input, st'.currentId, st'.currentKind)
        == Some(SendRequest(id, Trim(input), Some(ReplyType(KindOf(WithId(all, id))))))
  {
    ShowConversationThread(all, id);
  }

  /** The conversation refresh button: with a thread open (a non-empty id),
      the reloaded rows are shown for that thread; otherwise nothing
      happens. */
  function Refresh(st: ViewState, reloaded: seq<Row>): (ViewState, Option<ThreadView>) {
    match st.currentId
    case Some(id) => if id != "" then OpenThread(st, reloaded, id) else (st, None)
    case None => (st, None)
  }

  /** Refreshing an opened thread shows the same thread built from the
      reloaded rows, and keeps it open. */
  lemma OpenThenRefresh(st: ViewState, all: seq<Row>, reloaded: seq<Row>, id: string)
    requires id != ""
    ensures var st' := OpenThread(st, all, id).0;
      var r := Refresh(st', reloaded);
      && r.1 == ShowConversation(reloaded, id)
      && r.0.currentId == Some(id)
  {
  }

  /** `showHomepage()`: both globals are cleared. */
  function CloseThread(st: ViewState): ViewState {
    ViewState(None, None)
  }

  /** Back on the home page no reply is sent, whatever is typed and
      whatever thread was open. */
  lemma CloseThenSend(st: ViewState, input: string)
    ensures var st' := CloseThread(st);
      SendGuard(input, st'.currentId, st'.currentKind).None?
  {
  }

  /** Two rows of one thread, in row-number order, are the whole thread in
      display order. */
  lemma TwoRowThread(r1: Row, r2: Row)
    requires r1.id == r2.id && r1.rowNum < r2.rowNum
    ensures ByRowNum(WithId([r1, r2], r1.id)) == [r1, r2]
  {
    TwoRowFilter(r1, r2);
    TwoRowOrder(r1, r2);
  }

  lemma TwoRowFilter(r1: Row, r2: Row)
    requires r1.id == r2.id
    ensures WithId([r1, r2], r1.id) == [r1, r2]
  {
    assert [r1, r2][..1] == [r1];
    assert [r1][..0] == [];
    assert WithId([r1], r1.id) == [r1];
  }

  lemma TwoRowOrder(r1: Row, r2: Row)
    requires r1.rowNum < r2.rowNum
    ensures ByRowNum([r1, r2]) == [r1, r2]
  {
    var ms := ByRowNum([r1, r2]);
    assert ms[0] in multiset([r1, r2]) && ms[1] in multiset([r1, r2]);
  }

  /** The view of a two-row SMS thread whose rows are in row-number order. */
  lemma TwoRowSmsView(r1: Row, r2: Row)
    requires r1.id == r2.id && r1.rowNum < r2.rowNum
    requires r1.theType == "SMS" && r2.theType == "SMS"
    ensures ShowConversation([r1, r2], r1.id)
      == Some(ThreadView(Sms, r1.id, r1.processed != Null, Bubbles(Sms, r1.rowNum, [r1, r2])))
  {
    TwoRowThread(r1, r2);
    TwoSmsRows(r1, r2);
  }

  /** Two SMS rows make an SMS thread. */
  lemma TwoSmsRows(r1: Row, r2: Row)
    requires r1.theType == "SMS" && r2.theType == "SMS"
    ensures KindOf([r1, r2]) == Sms
  {
    assert |"SMS"| != |"email"| && |"SMS"| != |"iMessage"|;
  }

  /** The example of an SMS thread: a buffer row and one client message give
      a view titled with the phone number whose first bubble is blank and on
      the left and whose second bubble shows the body unchanged, also on the
      left. */
  lemma SmsExample(id: string, t1: Option<int>, t2: Option<int>)
    ensures var r1 := Row(id, 1, t1, "", "SMS", Null);
      var r2 := Row(id, 2, t2, "Client: Hi", "SMS", Null);
      var v := ShowConversation([r1, r2], id);
      && v.Some?
      && v.value.kind == Sms && v.value.title == id
      && |v.value.bubbles| == 2
      && v.value.bubbles[0].role == User && v.value.bubbles[0].text == ""
      && v.value.bubbles[1].role == User && v.value.bubbles[1].text == "Client: Hi"
  {
    var r1 := Row(id, 1, t1, "", "SMS", Null);
    var r2 := Row(id, 2, t2, "Client: Hi", "SMS", Null);
    TwoRowSmsView(r1, r2);
    SmsExampleBubbles(r1, r2);
  }

  /** The bubbles of the example: the buffer row blank and on the left, the
      client row unchanged and on the left. */
  lemma SmsExampleBubbles(r1: Row, r2: Row)
    requires r1.rowNum == 1 && r1.body == ""
    requires r2.rowNum == 2 && r2.body == "Client: Hi"
    ensures var bs := Bubbles(Sms, 1, [r1, r2]);
      && |bs| == 2
      && bs[0].role == User && bs[0].text == ""
      && bs[1].role == User && bs[1].text == "Client: Hi"
  {
    var bs := Bubbles(Sms, 1, [r1, r2]);
    assert bs[0] == BubbleOf(Sms, 1, r1) && bs[1] == BubbleOf(Sms, 1, r2);
    assert HtmlEscape.Escape("") == "";
    TagsExclusive(r2.body);
    ClientHiPlain();
  }

  lemma ClientHiPlain()
    ensures HtmlEscape.Escape("Client: Hi") == "Client: Hi"
  {
    var s := "Client: Hi";
    assert forall i :: 0 <= i < |s| ==> !HtmlEscape.IsSpecial(s[i]);
    HtmlEscape.EscapePlain(s);
  }

  /** A header line: the field's prefix, one space and the value. */
  function HeaderLine(f: Field, v: string): string {
    Prefix(f) + " " + v
  }

  /** The example of an email thread: a one-row email thread whose body has
      three lines, a subject line, a sender line and the message, gives an
      email view titled with sender and subject, with one bubble on the left
      showing the escaped message. The three values are already trimmed and
      the message is not itself a header line. */
  lemma EmailExample(r: Row, subject: string, from: string, text: string)
    requires r.theType == "email"
    requires Split(r.body, '\n') == [HeaderLine(Subject, subject), HeaderLine(From, from), text]
    requires Trim(subject) == subject && Trim(from) == from && Trim(text) == text
    requires !IsHeaderLine(text)
    ensures ShowConversation([r], r.id)
        == Some(ThreadView(Email, from + " \U{2014} Subject: " + subject, r.processed != Null,
             [Bubble(r.rowNum, User, StartsWith(r.body, BabaTag), HtmlEscape.Escape(text), r.createdAt)]))
  {
    EmailLines(r.body, subject, from, text);
    OneEmailRowView(r, Header(subject, from), text);
  }

  /** What a body with a subject line, a sender line and the message yields. */
  lemma EmailLines(body: string, subject: string, from: string, text: string)
    requires Split(body, '\n') == [HeaderLine(Subject, subject), HeaderLine(From, from), text]
    requires Trim(subject) == subject && Trim(from) == from && Trim(text) == text
    requires !IsHeaderLine(text)
    ensures EmailHeader(body) == Header(subject, from)
    ensures EmailContent(body) == text
  {
    var lines := Split(body, '\n');
    TrimAfterPrefix(Prefix(Subject), subject);
    TrimAfterPrefix(Prefix(From), from);
    HeaderOfLines(lines, subject, from);
    ContentOfLines(lines);
  }

  /** The view of a one-row email thread, given what its body yields. */
  lemma OneEmailRowView(r: Row, h: Header, content: string)
    requires r.theType == "email" && EmailHeader(r.body) == h && EmailContent(r.body) == content
    ensures ShowConversation([r], r.id) == Some(ThreadView(Email, EmailTitle(h), r.processed != Null,
      [Bubble(r.rowNum, User, StartsWith(r.body, BabaTag), HtmlEscape.Escape(content), r.createdAt)]))
  {
    OneRowView(r);
    assert KindOf([r]) == Email by {
      assert [r][0].theType == "email";
    }
  }

  /** The view of a one-row thread. */
  lemma OneRowView(r: Row)
    ensures var k := KindOf([r]);
      ShowConversation([r], r.id) == Some(ThreadView(k,
        if k == Email then EmailTitle(EmailHeader(r.body)) else r.id,
        r.processed != Null, [BubbleOf(k, r.rowNum, r)]))
  {
    OneRowThread(r);
    assert Bubbles(KindOf([r]), r.rowNum, [r]) == [BubbleOf(KindOf([r]), r.rowNum, r)];
  }

  /** A single row is its own thread. */
  lemma OneRowThread(r: Row)
    ensures ByRowNum(WithId([r], r.id)) == [r]
  {
    assert [r][..0] == [];
    assert WithId([r], r.id) == [r];
    var ms := ByRowNum([r]);
    assert ms[0] in multiset([r]);
  }

  /** A subject line, a sender line and a plain line carry the two values. */
  lemma HeaderOfLines(lines: seq<string>, subject: string, from: string)
    requires |lines| == 3 && !IsHeaderLine(lines[2])
    requires StartsWith(lines[0], Prefix(Subject)) && Trim(lines[0][|Prefix(Subject)|..]) == subject
    requires StartsWith(lines[1], Prefix(From)) && Trim(lines[1][|Prefix(From)|..]) == from
    ensures ScanHeader(lines) == Header(subject, from)
  {
    PrefixesExclusive(lines[1]);
    assert LastWith(lines, Subject, 0);
    assert LastWith(lines, From, 1);
    ScanHeaderField(lines, Subject);
    ScanHeaderField(lines, From);
  }

  /** Two header lines and a plain line leave the plain line as content. */
  lemma ContentOfLines(lines: seq<string>)
    requires |lines| == 3 && IsHeaderLine(lines[0]) && IsHeaderLine(lines[1]) && !IsHeaderLine(lines[2])
    ensures Join(BodyLines(lines), "\n") == lines[2]
  {
    assert lines == [lines[0]] + ([lines[1]] + [lines[2]]);
    BodyLinesConcat([lines[0]], [lines[1]] + [lines[2]]);
    BodyLinesConcat([lines[1]], [lines[2]]);
    BodyLinesPlain([lines[2]]);
  }
}
