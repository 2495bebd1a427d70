/** Stored chat messages, the selection of one user's messages of one day,
    and the transcript handed to the language model. The route handler and
    the journal-generation script select with different windows and format
    the same transcript. Times are integer milliseconds; the local midnight of a date
    is supplied by the caller, so time zones and daylight saving are not part
    of this model. */
module Conversation {
  import opened Common
  import Text
  import Sequences

  const MsPerDay := 86_400_000

  /** A message document: its owner, text, sender and time. */
  datatype StoredMessage = StoredMessage(userId: string, text: string, sender: string, timestamp: int)

  function TimeOf(m: StoredMessage): real {
    m.timestamp as real
  }

  /** The route's filter `{ userId, timestamp: { $gte: lo, $lte: hi } }`. */
  predicate InClosedWindow(m: StoredMessage, user: string, lo: int, hi: int) {
    m.userId == user && lo <= m.timestamp <= hi
  }

  /** The script's filter `{ userId, timestamp: { $gte: lo, $lt: hi } }`. */
  predicate InHalfOpenWindow(m: StoredMessage, user: string, lo: int, hi: int) {
    m.userId == user && lo <= m.timestamp < hi
  }

  /** The store's query sorted by `{ timestamp: 1 }`. The database does not
      fix the order of messages with equal times; the model picks one. */
  function SelectClosed(store: seq<StoredMessage>, user: string, lo: int, hi: int): (r: seq<StoredMessage>)
    ensures Sequences.SortedBy(r, TimeOf)
    ensures forall m :: multiset(r)[m] == if InClosedWindow(m, user, lo, hi) then multiset(store)[m] else 0
  {
    var f := Sequences.Filter(store, m => InClosedWindow(m, user, lo, hi));
    FilterCounts(store, m => InClosedWindow(m, user, lo, hi));
    Sequences.SortBy(f, TimeOf)
  }

  function SelectHalfOpen(store: seq<StoredMessage>, user: string, lo: int, hi: int): (r: seq<StoredMessage>)
    ensures Sequences.SortedBy(r, TimeOf)
    ensures forall m :: multiset(r)[m] == if InHalfOpenWindow(m, user, lo, hi) then multiset(store)[m] else 0
  {
    var f := Sequences.Filter(store, m => InHalfOpenWindow(m, user, lo, hi));
    FilterCounts(store, m => InHalfOpenWindow(m, user, lo, hi));
    Sequences.SortBy(f, TimeOf)
  }

  lemma FilterCounts(store: seq<StoredMessage>, p: StoredMessage -> bool)
    ensures forall m :: multiset(Sequences.Filter(store, p))[m] == if p(m) then multiset(store)[m] else 0
  {
    forall m {
      Sequences.FilterMultiset(store, p, m);
    }
  }

  /** On integer milliseconds the route's closed day `[d, d + 86 399 999]`
      and the script's half-open day `[d, d + 86 400 000)` select the same
      messages in the same order. */
  lemma DayWindowsAgree(store: seq<StoredMessage>, user: string, d: int)
    ensures SelectClosed(store, user, d, d + MsPerDay - 1) == SelectHalfOpen(store, user, d, d + MsPerDay)
  {
    Sequences.FilterCongruent(store, m => InClosedWindow(m, user, d, d + MsPerDay - 1),
                              m => InHalfOpenWindow(m, user, d, d + MsPerDay));
  }

  /** Who a sender is in the transcript. */
  function Speaker(sender: string): string {
    if sender == "user" then "User" else "Assistant"
  }

  /** What the language model endpoint produced. `Answered` is any reply
      whose body parsed as JSON, whatever its status: `data.response`, which
      is absent from an error reply such as `{"error": "..."}`, since nobody
      checks `response.ok`. `LlmFailed` is a thrown error (unreachable host,
      a body that is not JSON) with its message. */
  datatype LlmOutcome = Answered(response: Option<string>) | LlmFailed(message: string)

  /** One transcript line: `User: <text>` for the user's messages and
      `Assistant: <text>` for every other sender. */
  function LineOf(m: StoredMessage): (line: string)
    ensures Text.StartsWith(line, "User: ") <==> m.sender == "user"
    ensures Text.StartsWith(line, "Assistant: ") <==> m.sender != "user"
  {
    SpeakerPrefix(m.sender, m.text);
    Speaker(m.sender) + ": " + m.text
  }

  lemma SpeakerPrefix(sender: string, text: string)
    ensures var line := Speaker(sender) + ": " + text;
      && (Text.StartsWith(line, "User: ") <==> sender == "user")
      && (Text.StartsWith(line, "Assistant: ") <==> sender != "user")
  {
    var line := Speaker(sender) + ": " + text;
    if sender == "user" {
      assert line[..6] == "User: " && line[0] == 'U';
      assert |line| >= 11 ==> line[..11] != "Assistant: " by { assert "Assistant: "[0] == 'A'; }
    } else {
      assert line[..11] == "Assistant: " && line[0] == 'A';
      assert line[..6] != "User: " by { assert "User: "[0] == 'U'; }
    }
  }

  function Lines(ms: seq<StoredMessage>): (lines: seq<string>)
    ensures |lines| == |ms|
    ensures forall i :: 0 <= i < |ms| ==> lines[i] == LineOf(ms[i])
  {
    seq(|ms|, i requires 0 <= i < |ms| => LineOf(ms[i]))
  }

  /** The lines joined with newlines. */
  function Transcript(ms: seq<StoredMessage>): string {
    Text.Join(Lines(ms), "\n")
  }

  /** When no message text holds a newline, the transcript splits back into
      exactly one line per message, in order. */
  lemma TranscriptLines(ms: seq<StoredMessage>)
    requires |ms| > 0
    requires forall i :: 0 <= i < |ms| ==> '\n' !in ms[i].text
    ensures Text.Split(Transcript(ms), '\n') == Lines(ms)
  {
    var lines := Lines(ms);
    forall k | 0 <= k < |lines| ensures '\n' !in lines[k] {
      assert lines[k] == Speaker(ms[k].sender) + ": " + ms[k].text;
    }
    Text.SplitJoin(lines, '\n');
  }

  /** The transcript of no messages is empty. */
  lemma EmptyTranscript()
    ensures Transcript([]) == ""
  {
  }
}
