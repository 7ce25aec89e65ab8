/** The "AI replying" checkbox of the thread view (admin-app/app.js): a
    change sends the new setting for the thread's first row and then locks
    the checkbox for a cooldown; a failed update flips the checkbox back.
    The network call, the alert and the timer are events of the model. */
module AiToggle {
  import opened Wrappers
  import opened Rows
  import Threads

  /** The cooldown after each handled change, in milliseconds. */
  const CooldownMs: nat := 4000

  /** The checkbox: whether it is ticked, and whether it is locked. A locked
      checkbox always has exactly one cooldown timer pending. */
  datatype Checkbox = Checkbox(checked: bool, disabled: bool)

  /** The update posted to the AI-status endpoint: the row number of the
      thread's first row and the new `processed` value, `Some(true)` for
      `true` and `None` for JSON `null`. */
  datatype UpdateRequest = UpdateRequest(rowNum: int, processed: Option<bool>)

  /** How the update ends: the request or the JSON decoding threw, or the
      response's `result` field was truthy (`Answered(true)`) or not. */
  datatype Reply = Threw | Answered(result: bool)

  /** What can happen to the checkbox: the user clicks it, its cooldown
      timer fires, or the reply to an earlier update arrives. */
  datatype Event = Click | CooldownEnds | ReplyArrives(reply: Reply)

  /** `handleAICheckboxChange`, run on the checkbox as the change event
      leaves it: a locked checkbox is left alone; otherwise it is locked and,
      when the open thread has rows, an update for its smallest row number
      is produced. */
  function HandleChange(cb: Checkbox, all: seq<Row>, currentId: Option<string>): (r: (Checkbox, Option<UpdateRequest>))
    ensures r.0.checked == cb.checked
    ensures r.0.disabled
    ensures cb.disabled ==> r.0 == cb && r.1.None?
    ensures r.1.Some? <==> !cb.disabled && currentId.Some? && exists q :: 0 <= q < |all| && all[q].id == currentId.value
    ensures r.1.Some? ==>
      && (r.1.value.processed == Some(true) <==> cb.checked)
      && (r.1.value.processed.None? <==> !cb.checked)
      && (exists q :: 0 <= q < |all| && all[q].id == currentId.value && all[q].rowNum == r.1.value.rowNum)
      && (forall q :: 0 <= q < |all| && all[q].id == currentId.value ==> r.1.value.rowNum <= all[q].rowNum)
  {
    if cb.disabled then (cb, None)
    else
      var locked := cb.(disabled := true);
      if currentId.None? then
        (locked, None)
      else
        var ms := WithId(all, currentId.value);
        WithIdEmpty(all, currentId.value);
        if |ms| == 0 then (locked, None)
        else
          var first := FirstRow(ms, all, currentId.value);
          (locked, Some(UpdateRequest(first.rowNum, if cb.checked then Some(true) else None)))
  }

  /** The first row of a thread in row-number order: a row of the thread
      whose row number is the smallest. */
  function FirstRow(ms: seq<Row>, all: seq<Row>, id: string): (first: Row)
    requires ms == WithId(all, id) && |ms| > 0
    ensures exists q :: 0 <= q < |all| && all[q] == first && first.id == id
    ensures forall q :: 0 <= q < |all| && all[q].id == id ==> first.rowNum <= all[q].rowNum
  {
    var s := ByRowNum(ms);
    ByRowNumEnds(ms);
    WithIdExactly(all, id);
    WithIdHasId(all, id);
    assert s[0] in multiset(ms);
    assert s[0] in multiset(all);
    forall q | 0 <= q < |all| && all[q].id == id
      ensures s[0].rowNum <= all[q].rowNum
    {
      assert all[q] in multiset(ms);
    }
    s[0]
  }

  /** The reply handler: a reply that threw or whose `result` is falsy
      flips the checkbox back; the lock is not touched. */
  function HandleReply(cb: Checkbox, reply: Reply): (r: Checkbox)
    ensures r.disabled == cb.disabled
    ensures r.checked == (if reply == Answered(true) then cb.checked else !cb.checked)
  {
    match reply
    case Answered(true) => cb
    case _ => cb.(checked := !cb.checked)
  }

  /** One event. A click on an unlocked checkbox flips it before the change
      handler runs; the browser ignores clicks on a locked one. The timer
      unlocks; when none is pending (the checkbox is unlocked) nothing
      happens. */
  function Step(cb: Checkbox, e: Event, all: seq<Row>, currentId: Option<string>): (r: (Checkbox, Option<UpdateRequest>))
    ensures e.Click? && !cb.disabled ==> r.0.disabled && r.0.checked == !cb.checked
    ensures !e.CooldownEnds? ==> (cb.disabled ==> r.0.disabled)
    ensures e.CooldownEnds? ==> !r.0.disabled && r.0.checked == cb.checked
    ensures r.1.Some? ==> e.Click? && !cb.disabled
  {
    match e
    case Click =>
      if cb.disabled then (cb, None)
      else HandleChange(cb.(checked := !cb.checked), all, currentId)
    case CooldownEnds => (cb.(disabled := false), None)
    case ReplyArrives(reply) => (HandleReply(cb, reply), None)
  }

  /** A run of events from a checkbox state: the final state and every
      update sent, in order. */
  function Run(cb: Checkbox, es: seq<Event>, all: seq<Row>, currentId: Option<string>): (seq<UpdateRequest>, Checkbox)
    decreases |es|
  {
    if |es| == 0 then ([], cb)
    else
      var (next, sent) := Step(cb, es[0], all, currentId);
      var (rest, last) := Run(next, es[1..], all, currentId);
      ((if sent.Some? then [sent.value] else []) + rest, last)
  }

  /** The number of cooldown timer firings among the events. */
  function Cooldowns(es: seq<Event>): (n: nat)
    ensures n <= |es|
  {
    if |es| == 0 then 0
    else (if es[0].CooldownEnds? then 1 else 0) + Cooldowns(es[1..])
  }

  /** Anti-spam: every update after the first needs a cooldown to have
      ended since, so a run sends at most one update more than it has timer
      firings, and none more when it starts locked. */
  lemma {:induction false} AtMostOnePerCooldown(cb: Checkbox, es: seq<Event>, all: seq<Row>, currentId: Option<string>)
    ensures |Run(cb, es, all, currentId).0| <= Cooldowns(es) + (if cb.disabled then 0 else 1)
    decreases |es|
  {
    if |es| > 0 {
      var (next, sent) := Step(cb, es[0], all, currentId);
      AtMostOnePerCooldown(next, es[1..], all, currentId);
    }
  }

  /** Without a timer firing, a run sends at most one update. */
  lemma NoCooldownOneUpdate(cb: Checkbox, es: seq<Event>, all: seq<Row>, currentId: Option<string>)
    requires forall i :: 0 <= i < |es| ==> !es[i].CooldownEnds?
    ensures |Run(cb, es, all, currentId).0| <= 1
  {
    NoCooldowns(es);
    AtMostOnePerCooldown(cb, es, all, currentId);
  }

  lemma {:induction false} NoCooldowns(es: seq<Event>)
    requires forall i :: 0 <= i < |es| ==> !es[i].CooldownEnds?
    ensures Cooldowns(es) == 0
  {
    if |es| > 0 {
      NoCooldowns(es[1..]);
    }
  }

  /** A click followed by a failed update leaves the checkbox ticked as it
      was before the click, and still locked; a successful update keeps the
      click. The update sent carries the clicked value. */
  lemma ClickThenReply(cb: Checkbox, reply: Reply, all: seq<Row>, currentId: Option<string>)
    requires !cb.disabled
    ensures var (clicked, sent) := Step(cb, Click, all, currentId);
      var after := HandleReply(clicked, reply);
      && after.disabled
      && (after.checked == cb.checked <==> reply != Answered(true))
      && (sent.Some? ==> (sent.value.processed == Some(true) <==> !cb.checked))
  {
  }

  /** After a thread with rows is opened, a change of the unlocked checkbox
      sends an update for the row the view shows first, the one with the
      smallest row number, whatever was open before. */
  lemma OpenThenToggle(st: Threads.ViewState, all: seq<Row>, id: string, cb: Checkbox)
    requires Threads.ShowConversation(all, id).Some? && !cb.disabled
    ensures var st' := Threads.OpenThread(st, all, id).0;
      var r := HandleChange(cb, all, st'.currentId);
      && r.1.Some?
      && r.1.value.rowNum == ByRowNum(WithId(all, id))[0].rowNum
  {
    var ms := WithId(all, id);
    WithIdEmpty(all, id);
    ByRowNumEnds(ms);
    WithIdMember(all, id, ByRowNum(ms)[0]);
    var r := HandleChange(cb, all, Some(id));
    var q :| 0 <= q < |all| && all[q].id == id && all[q].rowNum == r.1.value.rowNum;
    WithIdMember(all, id, all[q]);
  }
}
