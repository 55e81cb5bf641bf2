/**
 * BotController: the broadcast-draft workflow.  An authorized sender's text or
 * photo message is held in `pending` under its own message id until the
 * sender presses one of the two prompt buttons; `send_<id>` fans the draft out
 * to every row of the user table and drops it, `cancel_<id>` drops it.  Every
 * reply, callback answer, prompt edit and per-recipient send is appended to
 * `outbox` in the order the handler issues it; each handler runs as one step.
 */
module Broadcast {
  import opened Wrappers
  import opened CallbackData
  import opened Users

  type FileId = string

  /** The parts of an incoming message (`ctx.msg`) the handlers look at. */
  datatype Message = Message(
    id: nat,
    from: Profile,
    chat: int,
    text: Option<string>,
    photo: Option<seq<FileId>>,
    caption: Option<string>)

  /** An inline-keyboard callback button: its text and its callback data. */
  datatype Button = Button(text: string, data: string)

  /** What the bot hands to the Telegram API, in issue order. */
  datatype Outbound =
    | Reply(chat: int, text: string, buttons: seq<Button>)
    | SendText(to: int, text: string)
    | SendPhoto(to: int, photo: FileId, caption: string)
    | AnswerCallback(text: string)
    | EditPrompt(text: string)

  const NotAuthorizedText := "Sorry, you are not authorized to send messages."
  const PromptText := "Do you want to send this message to everyone?"
  const UnsupportedText := "Currently, I can only process text messages or messages with a single image."
  const SentAnswerText := "Message sent to all users."
  const SentEditText := "Message has been sent to all users."
  const UnavailableText := "This message is no longer available."
  const CancelledAnswerText := "Sending cancelled."
  const CancelledEditText := "Sending has been cancelled."

  /** JavaScript truthiness of an optional string: present and non-empty. */
  predicate Truthy(s: Option<string>) {
    s.Some? && s.value != ""
  }

  /** `ctx.msg.text || ctx.msg.photo`: a non-empty text, or a photo array (which is truthy even when empty). */
  predicate Supported(m: Message) {
    Truthy(m.text) || m.photo.Some?
  }

  /** The per-recipient send can be issued: a photo message has a last size to forward. */
  predicate Deliverable(m: Message) {
    m.photo.Some? ==> |m.photo.value| > 0
  }

  /** `msg.caption || ''`. */
  function CaptionOrEmpty(caption: Option<string>): string {
    if Truthy(caption) then caption.value else ""
  }

  /** What follows the intro line in a broadcast: the caption of a photo, or the text. */
  function Payload(m: Message): string
    requires Supported(m)
  {
    if m.photo.Some? then CaptionOrEmpty(m.caption) else m.text.value
  }

  /** The two prompt buttons; each one's data routes back to its own decision on draft `id`. */
  function PromptButtons(id: nat): (bs: seq<Button>)
    ensures |bs| == 2
    ensures bs[0].data == Encode(Send, id) && bs[1].data == Encode(Cancel, id)
    ensures Decode(bs[0].data) == Some(Callback(Send, id))
    ensures Decode(bs[1].data) == Some(Callback(Cancel, id))
  {
    DecodeEncode(Send, id);
    DecodeEncode(Cancel, id);
    [Button("Yes, send", Encode(Send, id)), Button("No, cancel", Encode(Cancel, id))]
  }

  /**
   * The send one recipient row gets: the last (largest) photo size with the
   * intro line and the caption, or the intro line and the text.  A photo
   * message whose size array is empty makes the lookup of the last size throw
   * inside the per-recipient callback, so nothing is sent to that row.
   */
  function Delivery(intro: string -> string, m: Message, row: Row): seq<Outbound>
    requires Supported(m)
  {
    var body := intro(row.firstName) + "\n" + Payload(m);
    match m.photo
    case Some(sizes) => if |sizes| == 0 then [] else [SendPhoto(row.tgId, sizes[|sizes| - 1], body)]
    case None => [SendText(row.tgId, body)]
  }

  /** The sends of one confirmed draft, row after row. */
  function FanOut(intro: string -> string, m: Message, rows: seq<Row>): seq<Outbound>
    requires Supported(m)
  {
    if rows == [] then [] else FanOut(intro, m, rows[..|rows| - 1]) + Delivery(intro, m, rows[|rows| - 1])
  }

  /** Confirming over one more row appends that row's delivery. */
  lemma FanOutSnoc(intro: string -> string, m: Message, rows: seq<Row>, row: Row)
    requires Supported(m)
    ensures FanOut(intro, m, rows + [row]) == FanOut(intro, m, rows) + Delivery(intro, m, row)
  {
    assert (rows + [row])[..|rows|] == rows;
  }

  /** The recipient of a send; replies, answers and edits have none. */
  predicate IsSendTo(o: Outbound, tgId: int) {
    (o.SendText? && o.to == tgId) || (o.SendPhoto? && o.to == tgId)
  }

  /** The number of sends addressed to `tgId`. */
  function SendsTo(os: seq<Outbound>, tgId: int): nat {
    if os == [] then 0
    else SendsTo(os[..|os| - 1], tgId) + (if IsSendTo(os[|os| - 1], tgId) then 1 else 0)
  }

  /** The body a recipient sees: the intro for its first name, a newline, then the draft's text or caption. */
  predicate Addressed(o: Outbound, intro: string -> string, m: Message, row: Row)
    requires Supported(m)
  {
    var body := intro(row.firstName) + "\n" + Payload(m);
    if m.photo.Some? then
      |m.photo.value| > 0 && o == SendPhoto(row.tgId, m.photo.value[|m.photo.value| - 1], body)
    else o == SendText(row.tgId, body)
  }

  /** A deliverable draft gives row i exactly the i-th send, carrying the composed body. */
  lemma {:induction false} FanOutShape(intro: string -> string, m: Message, rows: seq<Row>)
    requires Supported(m) && Deliverable(m)
    ensures |FanOut(intro, m, rows)| == |rows|
    ensures forall i | 0 <= i < |rows| :: Addressed(FanOut(intro, m, rows)[i], intro, m, rows[i])
    decreases |rows|
  {
    if rows != [] {
      var init := rows[..|rows| - 1];
      FanOutShape(intro, m, init);
      forall i | 0 <= i < |rows|
        ensures Addressed(FanOut(intro, m, rows)[i], intro, m, rows[i])
      {
        if i < |init| {
          assert rows[i] == init[i];
        }
      }
    }
  }

  /** A photo draft with no sizes sends nothing at all. */
  lemma {:induction false} FanOutUndeliverable(intro: string -> string, m: Message, rows: seq<Row>)
    requires Supported(m) && !Deliverable(m)
    ensures FanOut(intro, m, rows) == []
    decreases |rows|
  {
    if rows != [] {
      FanOutUndeliverable(intro, m, rows[..|rows| - 1]);
    }
  }

  lemma {:induction false} SendsToAppend(os: seq<Outbound>, extra: seq<Outbound>, tgId: int)
    ensures SendsTo(os + extra, tgId) == SendsTo(os, tgId) + SendsTo(extra, tgId)
    decreases |extra|
  {
    if extra != [] {
      var init := extra[..|extra| - 1];
      assert (os + extra)[..|os + extra| - 1] == os + init;
      assert (os + extra)[|os + extra| - 1] == extra[|extra| - 1];
      SendsToAppend(os, init, tgId);
    } else {
      assert os + extra == os;
    }
  }

  /** A deliverable draft gives one row exactly one send, addressed to that row. */
  lemma DeliveryOnce(intro: string -> string, m: Message, row: Row, tgId: int)
    requires Supported(m) && Deliverable(m)
    ensures SendsTo(Delivery(intro, m, row), tgId) == if row.tgId == tgId then 1 else 0
  {
    var d := Delivery(intro, m, row);
    assert |d| == 1 && d[..0] == [];
  }

  /** Over rows with distinct ids, a deliverable draft reaches each listed id exactly once and nobody else. */
  lemma {:induction false} FanOutOncePerRow(intro: string -> string, m: Message, rows: seq<Row>, tgId: int)
    requires Supported(m) && Deliverable(m) && DistinctIds(rows)
    ensures SendsTo(FanOut(intro, m, rows), tgId) == if tgId in Ids(rows) then 1 else 0
    decreases |rows|
  {
    if rows != [] {
      var init := rows[..|rows| - 1];
      var last := rows[|rows| - 1];
      assert rows == init + [last];
      assert DistinctIds(init) by {
        forall i, j | 0 <= i < j < |init| ensures init[i].tgId != init[j].tgId {
          assert init[i] == rows[i] && init[j] == rows[j];
        }
      }
      assert last.tgId !in Ids(init) by {
        forall i | 0 <= i < |init| ensures init[i].tgId != last.tgId {
          assert init[i] == rows[i];
        }
      }
      var rest := FanOut(intro, m, init);
      assert FanOut(intro, m, rows) == rest + Delivery(intro, m, last);
      FanOutOncePerRow(intro, m, init, tgId);
      SendsToAppend(rest, Delivery(intro, m, last), tgId);
      DeliveryOnce(intro, m, last, tgId);
      IdsAppend(init, last);
    }
  }

  /**
   * A confirmed deliverable draft sends exactly one message to every user in
   * the table, authorized or not, and none to anybody else.
   */
  lemma BroadcastReachesEveryUser(intro: string -> string, m: Message, rows: seq<Row>, t: Table, tgId: int)
    requires Supported(m) && Deliverable(m) && Lists(rows, t)
    ensures SendsTo(FanOut(intro, m, rows), tgId) == if tgId in t then 1 else 0
  {
    FanOutOncePerRow(intro, m, rows, tgId);
  }

  /** The bot's state: the user table it reads and writes, the drafts awaiting a decision, and what it has sent. */
  class Controller {
    const db: UserTable
    /** The greeting line for a recipient's first name; its wording is not part of the model. */
    const intro: string -> string
    var pending: map<nat, Message>
    var outbox: seq<Outbound>

    /** Every draft is filed under its own message id and is a text or photo message. */
    ghost predicate Valid()
      reads this
    {
      forall id | id in pending :: pending[id].id == id && Supported(pending[id])
    }

    constructor (db: UserTable, intro: string -> string)
      ensures Valid()
      ensures this.db == db && this.intro == intro
      ensures pending == map[] && outbox == []
    {
      this.db := db;
      this.intro := intro;
      pending := map[];
      outbox := [];
    }

    /** The `message` handler. */
    method OnMessage(m: Message)
      requires Valid()
      modifies this, db
      ensures Valid()
      ensures !IsAuthorized(old(db.rows), m.from.id) ==>
        && pending == old(pending)
        && outbox == old(outbox) + [Reply(m.chat, NotAuthorizedText, [])]
        && db.rows == Inserted(old(db.rows), m.from, 0)
      ensures IsAuthorized(old(db.rows), m.from.id) && Supported(m) ==>
        && pending == old(pending)[m.id := m]
        && outbox == old(outbox) + [Reply(m.chat, PromptText, PromptButtons(m.id))]
        && db.rows == old(db.rows)
      ensures IsAuthorized(old(db.rows), m.from.id) && !Supported(m) ==>
        && pending == old(pending)
        && outbox == old(outbox) + [Reply(m.chat, UnsupportedText, [])]
        && db.rows == old(db.rows)
    {
      var authorized := db.IsUserAuthorized(m.from.id);
      if !authorized {
        outbox := outbox + [Reply(m.chat, NotAuthorizedText, [])];
        db.AddUser(m.from);
        return;
      }
      if Truthy(m.text) || m.photo.Some? {
        pending := pending[m.id := m];
        outbox := outbox + [Reply(m.chat, PromptText, PromptButtons(m.id))];
      } else {
        outbox := outbox + [Reply(m.chat, UnsupportedText, [])];
      }
    }

    /** The `send_<id>` handler. */
    method OnConfirm(id: nat)
      requires Valid()
      modifies this
      ensures Valid()
      ensures old(id in pending) ==>
        && pending == old(pending) - {id}
        && exists rows :: Lists(rows, db.rows) &&
             outbox == old(outbox) + FanOut(intro, old(pending)[id], rows)
                       + [AnswerCallback(SentAnswerText), EditPrompt(SentEditText)]
      ensures old(id !in pending) ==>
        && pending == old(pending)
        && outbox == old(outbox) + [AnswerCallback(UnavailableText)]
    {
      if id in pending {
        var draft := pending[id];
        var details := db.GetUserDetails();
        SendToAll(draft, details);
        pending := pending - {id};
        outbox := outbox + [AnswerCallback(SentAnswerText), EditPrompt(SentEditText)];
      } else {
        outbox := outbox + [AnswerCallback(UnavailableText)];
      }
    }

    /** `userDetails.forEach(...)`: the per-recipient callback for each row in turn. */
    method SendToAll(draft: Message, details: seq<Row>)
      requires Supported(draft)
      modifies this`outbox
      ensures outbox == old(outbox) + FanOut(intro, draft, details)
    {
      var i := 0;
      while i < |details|
        invariant 0 <= i <= |details|
        invariant outbox == old(outbox) + FanOut(intro, draft, details[..i])
      {
        SendToRow(draft, details[i]);
        FanOutSnoc(intro, draft, details[..i], details[i]);
        assert details[..i + 1] == details[..i] + [details[i]];
        i := i + 1;
      }
      assert details[..i] == details;
    }

    /**
     * The per-recipient callback of the fan-out: a photo draft forwards its
     * last size with the intro and the caption, a text draft sends the intro
     * and the text; a photo draft without sizes fails before anything is sent.
     */
    method SendToRow(draft: Message, row: Row)
      requires Supported(draft)
      modifies this`outbox
      ensures outbox == old(outbox) + Delivery(intro, draft, row)
    {
      match draft.photo {
        case Some(sizes) =>
          if |sizes| > 0 {
            outbox := outbox + [SendPhoto(row.tgId, sizes[|sizes| - 1], intro(row.firstName) + "\n" + CaptionOrEmpty(draft.caption))];
          }
        case None =>
          outbox := outbox + [SendText(row.tgId, intro(row.firstName) + "\n" + draft.text.value)];
      }
    }

    /** The `cancel_<id>` handler: drops the id whether or not it is pending. */
    method OnCancel(id: nat)
      requires Valid()
      modifies this
      ensures Valid()
      ensures pending == old(pending) - {id}
      ensures outbox == old(outbox) + [AnswerCallback(CancelledAnswerText), EditPrompt(CancelledEditText)]
    {
      pending := pending - {id};
      outbox := outbox + [AnswerCallback(CancelledAnswerText), EditPrompt(CancelledEditText)];
    }

    /** Routing of a pressed button: a payload that matches neither pattern reaches no handler. */
    method OnCallbackQuery(data: string)
      requires Valid()
      modifies this
      ensures Valid()
      ensures Decode(data) == None ==> pending == old(pending) && outbox == old(outbox)
      ensures Decode(data).Some? ==> pending == old(pending) - {Decode(data).value.id}
      ensures Decode(data).Some? && Decode(data).value.kind == Cancel ==>
        outbox == old(outbox) + [AnswerCallback(CancelledAnswerText), EditPrompt(CancelledEditText)]
      ensures Decode(data).Some? && Decode(data).value.kind == Send && old(Decode(data).value.id in pending) ==>
        exists rows :: Lists(rows, db.rows) &&
          outbox == old(outbox) + FanOut(intro, old(pending)[Decode(data).value.id], rows)
                    + [AnswerCallback(SentAnswerText), EditPrompt(SentEditText)]
      ensures Decode(data).Some? && Decode(data).value.kind == Send && old(Decode(data).value.id !in pending) ==>
        outbox == old(outbox) + [AnswerCallback(UnavailableText)]
    {
      match Decode(data) {
        case Some(Callback(Send, id)) => OnConfirm(id);
        case Some(Callback(Cancel, id)) => OnCancel(id);
        case None =>
      }
    }
  }
}
