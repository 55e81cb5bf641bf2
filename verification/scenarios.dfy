/**
 * Runs of several handler steps on one controller, proved from the handlers'
 * contracts alone.  Each handler is one atomic step here, so these say what a
 * sequential run of the bot does; they say nothing about interleaved handlers.
 */
module Scenarios {
  import opened Wrappers
  import opened CallbackData
  import opened Users
  import opened Broadcast

  /** After a cancel, a confirm for the same draft answers that it is gone and sends nothing. */
  method CancelThenConfirm(c: Controller, id: nat)
    requires c.Valid()
    modifies c
    ensures c.Valid()
    ensures c.pending == old(c.pending) - {id}
    ensures c.outbox == old(c.outbox) + [AnswerCallback(CancelledAnswerText), EditPrompt(CancelledEditText),
                                         AnswerCallback(UnavailableText)]
  {
    c.OnCancel(id);
    c.OnConfirm(id);
  }

  /** Cancelling twice drops the draft as one cancel does; the only trace of the second is its two acknowledgements. */
  method CancelTwice(c: Controller, id: nat)
    requires c.Valid()
    modifies c
    ensures c.Valid()
    ensures c.pending == old(c.pending) - {id}
    ensures c.outbox == old(c.outbox) + [AnswerCallback(CancelledAnswerText), EditPrompt(CancelledEditText),
                                         AnswerCallback(CancelledAnswerText), EditPrompt(CancelledEditText)]
  {
    c.OnCancel(id);
    c.OnCancel(id);
  }

  /** In a sequential run a draft is broadcast once: the second confirm finds nothing. */
  method ConfirmTwice(c: Controller, id: nat)
    requires c.Valid() && id in c.pending
    modifies c
    ensures c.Valid()
    ensures c.pending == old(c.pending) - {id}
    ensures exists rows ::
              && Lists(rows, c.db.rows)
              && c.outbox == old(c.outbox) + FanOut(c.intro, old(c.pending)[id], rows)
                   + [AnswerCallback(SentAnswerText), EditPrompt(SentEditText), AnswerCallback(UnavailableText)]
  {
    c.OnConfirm(id);
    ghost var rows :| Lists(rows, c.db.rows) &&
      c.outbox == old(c.outbox) + FanOut(c.intro, old(c.pending)[id], rows)
                  + [AnswerCallback(SentAnswerText), EditPrompt(SentEditText)];
    c.OnConfirm(id);
    assert Lists(rows, c.db.rows);
  }

  /**
   * Two messages from the same unauthorized sender: both are refused, no draft
   * is created, the sender ends up with exactly one row, and the second
   * message leaves the table as the first one left it.
   */
  method RepeatedUnauthorizedMessage(c: Controller, first: Message, second: Message)
    requires c.Valid()
    requires !IsAuthorized(c.db.rows, first.from.id) && second.from.id == first.from.id
    modifies c, c.db
    ensures c.Valid()
    ensures c.pending == old(c.pending)
    ensures c.db.rows == Inserted(old(c.db.rows), first.from, 0)
    ensures first.from.id in c.db.rows && !IsAuthorized(c.db.rows, first.from.id)
    ensures c.outbox == old(c.outbox) + [Reply(first.chat, NotAuthorizedText, []), Reply(second.chat, NotAuthorizedText, [])]
  {
    c.OnMessage(first);
    InsertNeverGrants(old(c.db.rows), first.from, first.from.id);
    c.OnMessage(second);
    InsertIgnoresRepeat(old(c.db.rows), first.from, second.from, 0, 0);
  }

  /**
   * An authorized text or photo message followed by a press on the prompt's
   * first button: the prompt is sent, then the draft is broadcast to every
   * row of the table as it stands at confirmation time, and it is no longer pending.
   */
  method PromptThenConfirm(c: Controller, m: Message)
    requires c.Valid()
    requires IsAuthorized(c.db.rows, m.from.id) && Supported(m)
    modifies c, c.db
    ensures c.Valid()
    ensures c.pending == old(c.pending) - {m.id}
    ensures exists rows ::
              && Lists(rows, c.db.rows)
              && c.outbox == old(c.outbox) + [Reply(m.chat, PromptText, PromptButtons(m.id))]
                   + FanOut(c.intro, m, rows) + [AnswerCallback(SentAnswerText), EditPrompt(SentEditText)]
  {
    c.OnMessage(m);
    assert c.outbox == old(c.outbox) + [Reply(m.chat, PromptText, PromptButtons(m.id))];
    assert m.id in c.pending && c.pending[m.id] == m;
    var yes := PromptButtons(m.id)[0];
    assert Decode(yes.data) == Some(Callback(Send, m.id));
    ghost var prompted := c.outbox;
    c.OnCallbackQuery(yes.data);
    ghost var rows :| Lists(rows, c.db.rows) &&
      c.outbox == prompted + FanOut(c.intro, m, rows) + [AnswerCallback(SentAnswerText), EditPrompt(SentEditText)];
  }
}
