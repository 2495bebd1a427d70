/** The journal route handlers: listing a user's journals, generating one
    from a day's chat, and deleting one. The stores are sequences, the
    language model is an oracle from prompt to outcome, and a failing save
    is a parameter. */
module JournalController {
  import opened Common
  import Text
  import Sequences
  import Conversation

  /** A journal document. `date` is the time in milliseconds of the `Date`
      written; `content` is absent when the model's reply had no `response`. */
  datatype JournalEntry = JournalEntry(
    id: nat, userId: string, date: int, content: Option<string>, mood: string, aiGenerated: bool)

  /** A response: a list with status 200, a created entry with status 201,
      or a status with a message. */
  datatype Reply =
    | JournalList(entries: seq<JournalEntry>)
    | Created(entry: JournalEntry)
    | Message(status: nat, message: string)

  // ---------------------------------------------------------------------------
  // getAllJournals

  function NegDateOf(j: JournalEntry): real {
    -(j.date as real)
  }

  predicate OwnedBy(j: JournalEntry, user: string) {
    j.userId == user
  }

  /** The user's entries, newest first. The database does not fix the order
      of entries with the same date; the model picks one. */
  function NewestFirst(store: seq<JournalEntry>, user: string): (r: seq<JournalEntry>)
    ensures forall i :: 0 <= i < |r| ==> r[i].userId == user
    ensures forall i, j :: 0 <= i < j < |r| ==> r[i].date >= r[j].date
    ensures forall e :: multiset(r)[e] == if e.userId == user then multiset(store)[e] else 0
  {
    var r := Sequences.SortBy(Sequences.Filter(store, (j: JournalEntry) => OwnedBy(j, user)), NegDateOf);
    NewestFirstFacts(store, user);
    r
  }

  lemma NewestFirstFacts(store: seq<JournalEntry>, user: string)
    ensures var own := Sequences.Filter(store, (j: JournalEntry) => OwnedBy(j, user));
      var r := Sequences.SortBy(own, NegDateOf);
      && (forall e :: multiset(r)[e] == if e.userId == user then multiset(store)[e] else 0)
      && (forall i :: 0 <= i < |r| ==> r[i].userId == user)
  {
    var p := (j: JournalEntry) => OwnedBy(j, user);
    var own := Sequences.Filter(store, p);
    var r := Sequences.SortBy(own, NegDateOf);
    forall e: JournalEntry ensures multiset(r)[e] == if e.userId == user then multiset(store)[e] else 0 {
      Sequences.FilterMultiset(store, p, e);
    }
    forall i | 0 <= i < |r| ensures r[i].userId == user {
      assert r[i] in multiset(own);
    }
  }

  // The listing as written: the journal schema declares `date` a string, so
  // the `Date` the handler writes is stored as its `toString()` rendering,
  // and `.sort({ date: -1 })` orders those renderings, weekday name first.

  /** MongoDB's descending order on the stored rendering, as a numeric key. */
  function StoredDateKey(render: int -> string): JournalEntry -> real {
    (j: JournalEntry) => -Text.CodePointKey(render(j.date))
  }

  /** `find({ userId }).sort({ date: -1 })` over stored date strings:
      `render` is `Date.prototype.toString` in the server's time zone. The
      caller's entries, ordered so that no rendering sorts before the one
      after it. */
  function NewestFirstAsWritten(store: seq<JournalEntry>, user: string, render: int -> string): (r: seq<JournalEntry>)
    ensures forall e :: multiset(r)[e] == if e.userId == user then multiset(store)[e] else 0
    ensures forall i, j :: 0 <= i < j < |r| ==> !Text.LexLess(render(r[i].date), render(r[j].date))
  {
    var own := Sequences.Filter(store, (j: JournalEntry) => OwnedBy(j, user));
    var r := Sequences.SortBy(own, StoredDateKey(render));
    NewestFirstFacts(store, user);
    forall i, j | 0 <= i < j < |r| ensures !Text.LexLess(render(r[i].date), render(r[j].date)) {
      assert StoredDateKey(render)(r[i]) <= StoredDateKey(render)(r[j]);
      Text.KeyOrder(render(r[i].date), render(r[j].date));
    }
    r
  }

  /** A Wednesday's entry is listed before the next day's: the stored
      renderings start with `Wed` and `Thu`, and `T` sorts before `W`, so the
      older entry comes first, where the intended listing puts it second. */
  lemma WeekdayNameDecidesOrder(render: int -> string, e1: JournalEntry, e2: JournalEntry)
    requires e1.userId == e2.userId && e1.date < e2.date
    requires Text.StartsWith(render(e1.date), "Wed") && Text.StartsWith(render(e2.date), "Thu")
    ensures NewestFirstAsWritten([e1, e2], e1.userId, render) == [e1, e2]
    ensures NewestFirst([e1, e2], e1.userId) == [e2, e1]
  {
    var u := e1.userId;
    var a := NewestFirstAsWritten([e1, e2], u, render);
    var n := NewestFirst([e1, e2], u);
    TwoEntries(a, e1, e2);
    TwoEntries(n, e1, e2);
    var w, t := render(e1.date), render(e2.date);
    Text.StartsWithHead(w, "Wed");
    Text.StartsWithHead(t, "Thu");
    assert Text.LexLess(t, w);
    assert !Text.LexLess(render(a[0].date), render(a[1].date));
  }

  /** A list holding exactly two distinct entries is one of their two orders. */
  lemma TwoEntries(r: seq<JournalEntry>, e1: JournalEntry, e2: JournalEntry)
    requires e1 != e2
    requires forall e :: multiset(r)[e] == multiset([e1, e2])[e]
    ensures r == [e1, e2] || r == [e2, e1]
  {
    assert multiset(r) == multiset([e1, e2]);
    assert |r| == 2 by {
      assert |multiset(r)| == |r|;
    }
    assert r[0] in multiset(r) && r[1] in multiset(r);
  }

  /** `getAllJournals`: the caller's journals, newest first, or a 500 reply
      when the query fails (`None`). */
  function GetAllJournals(store: Option<seq<JournalEntry>>, user: string): (r: Reply)
    ensures store.None? ==> r == Message(500, "Server error while fetching journals")
    ensures store.Some? ==>
      && r.JournalList?
      && (forall i :: 0 <= i < |r.entries| ==> r.entries[i].userId == user)
      && (forall i, j :: 0 <= i < j < |r.entries| ==> r.entries[i].date >= r.entries[j].date)
      && (forall e :: multiset(r.entries)[e] == if e.userId == user then multiset(store.value)[e] else 0)
  {
    match store
    case None => Message(500, "Server error while fetching journals")
    case Some(s) => JournalList(NewestFirst(s, user))
  }

  // ---------------------------------------------------------------------------
  // generateFromChat

  /** The request's `date` as written, the time `new Date(date)` gives, and
      the local midnight of that day. */
  datatype RequestDate = RequestDate(text: string, instant: int, dayStart: int)

  /** The caller's message sent on that day. */
  predicate OnDay(m: Conversation.StoredMessage, user: string, date: RequestDate) {
    m.userId == user && date.dayStart <= m.timestamp < date.dayStart + Conversation.MsPerDay
  }

  /** The selection: `[00:00:00.000, 23:59:59.999]` of that day, which on
      integer milliseconds is every message of the caller's day, by time. */
  function DayMessages(messages: seq<Conversation.StoredMessage>, user: string, date: RequestDate): (r: seq<Conversation.StoredMessage>)
    ensures Sequences.SortedBy(r, Conversation.TimeOf)
    ensures forall m :: multiset(r)[m] == if OnDay(m, user, date) then multiset(messages)[m] else 0
  {
    Conversation.SelectClosed(messages, user, date.dayStart, date.dayStart + Conversation.MsPerDay - 1)
  }

  const IntroHead := "Based on the following conversation, write a personal journal entry for "
  const IntroTail := ". Make it reflective, personal, and include key insights. Format it as a diary entry.\n\n"

  function PromptIntro(dateText: string): string {
    IntroHead + dateText + IntroTail
  }

  const Header := "Conversation:\n"

  /** The prompt: the instructions naming the date, then `Conversation:` on a
      line of its own, then the transcript, which ends the prompt. */
  function Prompt(dateText: string, transcript: string): (p: string)
    ensures Text.StartsWith(p, IntroHead + dateText)
    ensures |p| >= |Header| + |transcript|
    ensures p[|p| - |transcript| - |Header|..] == Header + transcript
  {
    var intro := PromptIntro(dateText);
    var p := intro + (Header + transcript);
    assert p[..|IntroHead + dateText|] == IntroHead + dateText by {
      assert intro == (IntroHead + dateText) + IntroTail;
      assert p == (IntroHead + dateText) + (IntroTail + (Header + transcript));
    }
    assert |p| - |transcript| - |Header| == |intro|;
    assert p[|intro|..] == Header + transcript;
    p
  }

  /** The prompt for the caller's messages of that day. */
  function DayPrompt(messages: seq<Conversation.StoredMessage>, user: string, date: RequestDate): (p: string)
    ensures Text.StartsWith(p, IntroHead + date.text)
    ensures var t := Conversation.Transcript(DayMessages(messages, user, date));
      |p| >= |Header| + |t| && p[|p| - |t| - |Header|..] == Header + t
  {
    Prompt(date.text, Conversation.Transcript(DayMessages(messages, user, date)))
  }

  datatype Generation = Generation(reply: Reply, journals: seq<JournalEntry>)

  const NoMessages := "No messages found for this date"

  /** `generateFromChat`: no messages that day is a 400 reply; otherwise the
      transcript goes to the model and the reply's `response`, present or not,
      is saved as a new entry with mood `neutral`, marked as generated; a
      failing model call or save is a 500 reply with the error's message.
      `newId` is the id the store assigns. */
  function GenerateFromChat(
    messages: seq<Conversation.StoredMessage>, journals: seq<JournalEntry>, user: string,
    date: RequestDate, llm: string -> Conversation.LlmOutcome, saveError: Option<string>, newId: nat): (r: Generation)
    ensures r.reply == Message(400, NoMessages) <==> |DayMessages(messages, user, date)| == 0
    ensures !r.reply.Created? ==> r.journals == journals
    ensures r.reply.Created? ==>
      var e := r.reply.entry;
      && r.journals == journals + [e]
      && e.userId == user && e.date == date.instant && e.mood == "neutral" && e.aiGenerated
      && llm(DayPrompt(messages, user, date)) == Conversation.Answered(e.content)
  {
    var selection := DayMessages(messages, user, date);
    if |selection| == 0 then Generation(Message(400, NoMessages), journals)
    else
      match llm(DayPrompt(messages, user, date))
      case LlmFailed(msg) => Generation(Message(500, msg), journals)
      case Answered(content) =>
        var e := JournalEntry(newId, user, date.instant, content, "neutral", true);
        match saveError
        case Some(msg) => Generation(Message(500, msg), journals)
        case None => Generation(Created(e), journals + [e])
  }

  /** A day without messages neither consults the model nor saves: the
      outcome is the same whatever the model and the store would do. */
  lemma NoMessagesNoGeneration(
    messages: seq<Conversation.StoredMessage>, journals: seq<JournalEntry>, user: string, date: RequestDate,
    llm1: string -> Conversation.LlmOutcome, save1: Option<string>, id1: nat,
    llm2: string -> Conversation.LlmOutcome, save2: Option<string>, id2: nat)
    requires |DayMessages(messages, user, date)| == 0
    ensures GenerateFromChat(messages, journals, user, date, llm1, save1, id1)
         == GenerateFromChat(messages, journals, user, date, llm2, save2, id2)
  {
  }

  /** With messages that day, a working model and a working store, exactly
      one entry is added. */
  lemma GenerationSaves(
    messages: seq<Conversation.StoredMessage>, journals: seq<JournalEntry>, user: string,
    date: RequestDate, llm: string -> Conversation.LlmOutcome, newId: nat)
    requires |DayMessages(messages, user, date)| > 0
    requires llm(DayPrompt(messages, user, date)).Answered?
    ensures var r := GenerateFromChat(messages, journals, user, date, llm, None, newId);
      r.reply.Created? && |r.journals| == |journals| + 1 && r.journals[|journals|] == r.reply.entry
  {
  }

  /** The reply's status is never checked: an error reply from the model,
      whose body has no `response`, is still saved, as an entry without
      content, and answered with 201. */
  lemma ErrorReplyIsSaved(
    messages: seq<Conversation.StoredMessage>, journals: seq<JournalEntry>, user: string,
    date: RequestDate, llm: string -> Conversation.LlmOutcome, newId: nat)
    requires |DayMessages(messages, user, date)| > 0
    requires llm(DayPrompt(messages, user, date)) == Conversation.Answered(None)
    ensures var r := GenerateFromChat(messages, journals, user, date, llm, None, newId);
      r.reply.Created? && r.reply.entry.content.None? && r.journals == journals + [r.reply.entry]
  {
  }

  // ---------------------------------------------------------------------------
  // deleteJournal

  /** `findOne({ _id: id, userId })`: the first entry with that id owned by
      the caller. */
  function FindOwned(journals: seq<JournalEntry>, user: string, id: nat): (k: Option<nat>)
    ensures k.Some? ==> k.value < |journals| && journals[k.value].id == id && journals[k.value].userId == user
    ensures k.Some? ==> forall i :: 0 <= i < k.value ==> !(journals[i].id == id && journals[i].userId == user)
    ensures k.None? ==> forall i :: 0 <= i < |journals| ==> !(journals[i].id == id && journals[i].userId == user)
  {
    if |journals| == 0 then None
    else if journals[0].id == id && journals[0].userId == user then Some(0)
    else match FindOwned(journals[1..], user, id)
      case None => None
      case Some(k) => Some(k + 1)
  }

  datatype Deletion = Deletion(reply: Reply, journals: seq<JournalEntry>)

  /** The `:id` route parameter: an object id, or text that `findOne` cannot
      cast to one, which raises a cast error with its message. */
  datatype IdParam = ObjectId(value: nat) | Malformed(castError: string)

  const NotFound := "Journal entry not found"
  const Deleted := "Journal entry deleted"

  /** `deleteJournal`: a malformed id is a 500 reply with the cast error's
      message; 404 unless the caller owns an entry with that id; otherwise
      that one entry is removed, or, when `remove()` throws (`removeError`),
      a 500 reply with its message and nothing removed. */
  function DeleteJournal(journals: seq<JournalEntry>, user: string, id: IdParam, removeError: Option<string>): (r: Deletion)
    ensures id.Malformed? ==> r == Deletion(Message(500, id.castError), journals)
    ensures id.ObjectId? ==>
      (r.reply == Message(404, NotFound) <==>
       forall i :: 0 <= i < |journals| ==> !(journals[i].id == id.value && journals[i].userId == user))
    ensures r.reply != Message(200, Deleted) ==> r.journals == journals
    ensures r.reply == Message(200, Deleted) <==>
      id.ObjectId? && removeError.None?
      && exists i :: 0 <= i < |journals| && journals[i].id == id.value && journals[i].userId == user
    ensures r.reply == Message(200, Deleted) ==>
      exists k :: 0 <= k < |journals| && journals[k].id == id.value && journals[k].userId == user
        && r.journals == journals[..k] + journals[k + 1..]
  {
    match id
    case Malformed(msg) => Deletion(Message(500, msg), journals)
    case ObjectId(n) =>
      match FindOwned(journals, user, n)
      case None => Deletion(Message(404, NotFound), journals)
      case Some(k) =>
        match removeError
        case Some(msg) => Deletion(Message(500, msg), journals)
        case None => Deletion(Message(200, Deleted), journals[..k] + journals[k + 1..])
  }

  /** A deletion removes one entry of the caller's and no entry of anyone else. */
  lemma DeleteKeepsOthers(journals: seq<JournalEntry>, user: string, id: IdParam, removeError: Option<string>)
    ensures var r := DeleteJournal(journals, user, id, removeError);
      && |r.journals| >= |journals| - 1
      && forall e: JournalEntry :: e.userId != user ==> multiset(r.journals)[e] == multiset(journals)[e]
  {
    var r := DeleteJournal(journals, user, id, removeError);
    if r.reply == Message(200, Deleted) {
      var found := FindOwned(journals, user, id.value);
      var k := found.value;
      assert journals == journals[..k] + [journals[k]] + journals[k + 1..];
      assert multiset(journals) == multiset(r.journals) + multiset{journals[k]};
    }
  }
}
