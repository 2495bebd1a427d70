/** The journal-generation script: for each user in turn, yesterday's
    messages become one generated journal, and only once that journal is
    saved are those messages deleted. Any thrown error ends the process with
    exit code 1. The clock, the model and the store's failures are
    parameters. Nothing in the repository runs the script. */
module GenerateJournals {
  import opened Common
  import Sequences
  import Conversation
  import Text

  /** A journal document of the script's model. */
  datatype Journal = Journal(userId: string, date: int, content: Option<string>, mood: string, aiGenerated: bool)

  datatype Store = Store(messages: seq<Conversation.StoredMessage>, journals: seq<Journal>)

  /** A store write that throws during one user's turn. */
  datatype StoreFault = NoFault | SaveFails | DeleteFails

  /** Everything outside the script: `midnight(i)` is yesterday's local
      midnight as computed at the start of the `i`-th turn; `isoDate` is
      `toISOString().split('T')[0]` of a time; `fault(i)` says which write of
      the `i`-th turn throws. */
  datatype Env = Env(
    midnight: nat -> int,
    isoDate: int -> string,
    llm: string -> Conversation.LlmOutcome,
    fault: nat -> StoreFault)

  const IntroHead := "Based on the following conversation, write a personal journal entry for "
  const IntroTail := ". Make it reflective, personal, and include key insights from the conversation. Format it as a diary entry with a greeting and signature.\n\nConversation:\n"

  function ScriptPrompt(day: string, transcript: string): string {
    IntroHead + day + IntroTail + transcript
  }

  /** The messages `Message.find` selects for `user` on the day starting at `y`. */
  function Yesterday(messages: seq<Conversation.StoredMessage>, user: string, y: int): seq<Conversation.StoredMessage> {
    Conversation.SelectHalfOpen(messages, user, y, y + Conversation.MsPerDay)
  }

  /** `Message.deleteMany` with the same filter. */
  function DeleteDay(messages: seq<Conversation.StoredMessage>, user: string, y: int): (r: seq<Conversation.StoredMessage>)
    ensures forall m :: Conversation.InHalfOpenWindow(m, user, y, y + Conversation.MsPerDay) ==> multiset(r)[m] == 0
    ensures forall m :: !Conversation.InHalfOpenWindow(m, user, y, y + Conversation.MsPerDay) ==> multiset(r)[m] == multiset(messages)[m]
  {
    var p := (m: Conversation.StoredMessage) => !Conversation.InHalfOpenWindow(m, user, y, y + Conversation.MsPerDay);
    Conversation.FilterCounts(messages, p);
    Sequences.Filter(messages, p)
  }

  /** The deletion removes exactly the messages the journal was written from. */
  lemma DeletesExactlyTheSelection(messages: seq<Conversation.StoredMessage>, user: string, y: int)
    ensures multiset(messages) == multiset(DeleteDay(messages, user, y)) + multiset(Yesterday(messages, user, y))
  {
    var rest := DeleteDay(messages, user, y);
    var sel := Yesterday(messages, user, y);
    forall m ensures multiset(messages)[m] == (multiset(rest) + multiset(sel))[m] {
    }
  }

  /** The outcome of one user's turn: carry on with the store, or exit. */
  datatype Turn = Continue(store: Store) | Exit(code: int, store: Store)

  /** A journal the script writes for `user` on the day starting at `y`. */
  predicate ScriptJournal(j: Journal, user: string, y: int) {
    j.userId == user && j.date == y && j.mood == "neutral" && j.aiGenerated
  }

  /** `after` is `before`, or `before` with one journal for `user` appended. */
  predicate AtMostOneAdded(before: seq<Journal>, after: seq<Journal>, user: string, y: int) {
    after == before
    || (|after| == |before| + 1 && after[..|before|] == before && ScriptJournal(after[|before|], user, y))
  }

  /** What the model replies to the prompt built from `user`'s messages of
      the day starting at `y`. */
  function Reply(messages: seq<Conversation.StoredMessage>, user: string, y: int, env: Env): Conversation.LlmOutcome {
    env.llm(ScriptPrompt(env.isoDate(y), Conversation.Transcript(Yesterday(messages, user, y))))
  }

  /** One iteration of the loop, for the `i`-th user. Messages are deleted
      only in a turn that carries on after appending its journal, and then
      exactly that day's messages of that user. When the user had messages,
      the model answered and no write throws, the turn appends the journal
      holding the reply and deletes the messages it was written from. */
  function ProcessUser(i: nat, user: string, st: Store, env: Env): (r: Turn)
    ensures r.Exit? ==> r.code == 1
    ensures |Yesterday(st.messages, user, env.midnight(i))| == 0 ==> r == Continue(st)
    ensures var y := env.midnight(i);
      var reply := Reply(st.messages, user, y, env);
      |Yesterday(st.messages, user, y)| > 0 && reply.Answered? && env.fault(i) == NoFault ==>
        r == Continue(Store(DeleteDay(st.messages, user, y), st.journals + [Journal(user, y, reply.response, "neutral", true)]))
    ensures |Yesterday(st.messages, user, env.midnight(i))| > 0 && Reply(st.messages, user, env.midnight(i), env).LlmFailed? ==> r == Exit(1, st)
    ensures AtMostOneAdded(st.journals, r.store.journals, user, env.midnight(i))
    ensures r.store.messages == st.messages
      || (r.Continue? && |r.store.journals| == |st.journals| + 1
          && r.store.messages == DeleteDay(st.messages, user, env.midnight(i)))
  {
    var y := env.midnight(i);
    var selection := Yesterday(st.messages, user, y);
    if |selection| == 0 then Continue(st)
    else
      match Reply(st.messages, user, y, env)
      case LlmFailed(_) => Exit(1, st)
      case Answered(content) =>
        var j := Journal(user, y, content, "neutral", true);
        assert (st.journals + [j])[..|st.journals|] == st.journals;
        match env.fault(i)
        case SaveFails => Exit(1, st)
        case DeleteFails => Exit(1, st.(journals := st.journals + [j]))
        case NoFault => Continue(Store(DeleteDay(st.messages, user, y), st.journals + [j]))
  }

  function UserIds(js: seq<Journal>): (ids: seq<string>)
    ensures |ids| == |js|
  {
    seq(|js|, k requires 0 <= k < |js| => js[k].userId)
  }

  /** `after` extends `before` with generated journals, at most one per
      occurrence of a user in `users`. */
  predicate Extends(before: seq<Journal>, after: seq<Journal>, users: seq<string>) {
    && |before| <= |after| && after[..|before|] == before
    && multiset(UserIds(after[|before|..])) <= multiset(users)
    && (forall k :: |before| <= k < |after| ==> after[k].mood == "neutral" && after[k].aiGenerated)
  }

  /** No message is more frequent in `after` than in `before`. */
  predicate OnlyRemoves(before: seq<Conversation.StoredMessage>, after: seq<Conversation.StoredMessage>) {
    multiset(after) <= multiset(before)
  }

  datatype RunResult = RunResult(exitCode: int, store: Store)

  /** The loop from the `i`-th user on, then `process.exit(0)`. */
  function RunFrom(users: seq<string>, i: nat, st: Store, env: Env): (r: RunResult)
    requires i <= |users|
    ensures r.exitCode == 0 || r.exitCode == 1
    ensures Extends(st.journals, r.store.journals, users[i..])
    ensures OnlyRemoves(st.messages, r.store.messages)
    decreases |users| - i
  {
    if i == |users| then
      assert st.journals[|st.journals|..] == [];
      RunResult(0, st)
    else
      var t := ProcessUser(i, users[i], st, env);
      var r := match t
        case Exit(code, s) => RunResult(code, s)
        case Continue(s) => RunFrom(users, i + 1, s, env);
      TurnOnlyRemoves(i, users[i], st, env);
      RunStep(st, t, r, users, i, env.midnight(i));
      r
  }

  /** A turn followed by the rest of the run, or a turn that exits, keeps
      both invariants of the run from the turn's user on. */
  lemma RunStep(st: Store, t: Turn, r: RunResult, users: seq<string>, i: nat, y: int)
    requires i < |users|
    requires AtMostOneAdded(st.journals, t.store.journals, users[i], y)
    requires OnlyRemoves(st.messages, t.store.messages)
    requires || (t.Exit? && r.store == t.store)
             || (Extends(t.store.journals, r.store.journals, users[i + 1..])
                 && OnlyRemoves(t.store.messages, r.store.messages))
    ensures Extends(st.journals, r.store.journals, users[i..])
    ensures OnlyRemoves(st.messages, r.store.messages)
  {
    assert users[i..] == [users[i]] + users[i + 1..];
    ExtendsOne(st.journals, t.store.journals, r.store.journals, users[i], y, users[i + 1..]);
  }

  /** A turn followed by the rest of the run extends the journals by the
      turn's user and the rest's users. */
  lemma ExtendsOne(before: seq<Journal>, mid: seq<Journal>, after: seq<Journal>, user: string, y: int, rest: seq<string>)
    requires AtMostOneAdded(before, mid, user, y)
    requires Extends(mid, after, rest) || after == mid
    ensures Extends(before, after, [user] + rest)
  {
    if after == mid {
      assert after[|mid|..] == [];
    }
    if mid == before {
      ExtendsWiden(before, after, user, rest);
    } else {
      ExtendsAppended(before, mid, after, user, y, rest);
    }
  }

  lemma ExtendsWiden(before: seq<Journal>, after: seq<Journal>, user: string, rest: seq<string>)
    requires Extends(before, after, rest)
    ensures Extends(before, after, [user] + rest)
  {
    assert multiset([user] + rest) == multiset{user} + multiset(rest);
  }

  lemma ExtendsAppended(before: seq<Journal>, mid: seq<Journal>, after: seq<Journal>, user: string, y: int, rest: seq<string>)
    requires |mid| == |before| + 1 && mid[..|before|] == before && ScriptJournal(mid[|before|], user, y)
    requires Extends(mid, after, rest)
    ensures Extends(before, after, [user] + rest)
  {
    var n := |before|;
    assert after[..n] == mid[..n];
    assert after[n..] == [mid[n]] + after[|mid|..];
    assert UserIds(after[n..]) == [user] + UserIds(after[|mid|..]);
    assert multiset([user] + rest) == multiset{user} + multiset(rest);
    assert multiset(UserIds(after[n..])) == multiset{user} + multiset(UserIds(after[|mid|..]));
  }

  lemma TurnOnlyRemoves(i: nat, user: string, st: Store, env: Env)
    ensures OnlyRemoves(st.messages, ProcessUser(i, user, st, env).store.messages)
  {
    var t := ProcessUser(i, user, st, env);
    if t.store.messages != st.messages {
      assert t.store.messages == DeleteDay(st.messages, user, env.midnight(i));
    }
  }

  /** `generateJournals()` over the users `User.find({})` returned. */
  function Run(users: seq<string>, st: Store, env: Env): (r: RunResult)
    ensures r.exitCode == 0 || r.exitCode == 1
    ensures Extends(st.journals, r.store.journals, users)
    ensures OnlyRemoves(st.messages, r.store.messages)
  {
    assert users[0..] == users;
    RunFrom(users, 0, st, env)
  }

  /** The messages of anyone not among the users are never touched. */
  lemma {:induction false} OtherUsersKeepMessages(users: seq<string>, i: nat, st: Store, env: Env, m: Conversation.StoredMessage)
    requires i <= |users|
    requires m.userId !in users[i..]
    ensures multiset(RunFrom(users, i, st, env).store.messages)[m] == multiset(st.messages)[m]
    decreases |users| - i
  {
    if i < |users| {
      var t := ProcessUser(i, users[i], st, env);
      assert m.userId != users[i];
      if t.store.messages != st.messages {
        assert t.store.messages == DeleteDay(st.messages, users[i], env.midnight(i));
      }
      if t.Continue? {
        assert users[i + 1..] == users[i..][1..];
        OtherUsersKeepMessages(users, i + 1, t.store, env, m);
      }
    }
  }

  /** When the model always answers and no write throws, the run exits with 0. */
  lemma {:induction false} NoFaultExitsZero(users: seq<string>, i: nat, st: Store, env: Env)
    requires i <= |users|
    requires forall p :: env.llm(p).Answered?
    requires forall k :: env.fault(k) == NoFault
    ensures RunFrom(users, i, st, env).exitCode == 0
    decreases |users| - i
  {
    if i < |users| {
      var t := ProcessUser(i, users[i], st, env);
      var y := env.midnight(i);
      var sel := Yesterday(st.messages, users[i], y);
      if |sel| > 0 {
        assert Reply(st.messages, users[i], y, env).Answered?;
      }
      assert t.Continue?;
      NoFaultExitsZero(users, i + 1, t.store, env);
    }
  }

  /** The journals a run from the `i`-th user on writes when nothing fails,
      each computed from the messages as they were before the run: one per
      user who had messages on the day before that user's turn. */
  function Generated(users: seq<string>, i: nat, messages: seq<Conversation.StoredMessage>, env: Env): seq<Journal>
    requires i <= |users|
    requires forall p :: env.llm(p).Answered?
    decreases |users| - i
  {
    if i == |users| then []
    else
      var y := env.midnight(i);
      var own := if |Yesterday(messages, users[i], y)| > 0
        then [Journal(users[i], y, Reply(messages, users[i], y, env).response, "neutral", true)]
        else [];
      own + Generated(users, i + 1, messages, env)
  }

  /** A message lies in the day window of some user from the `i`-th on. */
  predicate Swept(m: Conversation.StoredMessage, users: seq<string>, i: nat, env: Env) {
    exists k :: i <= k < |users| && Conversation.InHalfOpenWindow(m, users[k], env.midnight(k), env.midnight(k) + Conversation.MsPerDay)
  }

  /** The users from the `i`-th on are pairwise distinct, as the `_id`s of
      `User.find({})` are. */
  predicate DistinctFrom(users: seq<string>, i: nat) {
    forall a, b :: i <= a < b < |users| ==> users[a] != users[b]
  }

  /** Deleting one user's day leaves every other user's selection as it was. */
  lemma OtherSelectionKept(messages: seq<Conversation.StoredMessage>, user: string, y: int, other: string, z: int)
    requires other != user
    ensures Yesterday(DeleteDay(messages, user, y), other, z) == Yesterday(messages, other, z)
  {
    var keep := (m: Conversation.StoredMessage) => !Conversation.InHalfOpenWindow(m, user, y, y + Conversation.MsPerDay);
    var sel := (m: Conversation.StoredMessage) => Conversation.InHalfOpenWindow(m, other, z, z + Conversation.MsPerDay);
    Sequences.FilterFilter(messages, keep, sel);
  }

  /** The journals the later users get do not depend on an earlier user's
      deletion. */
  lemma {:induction false} GeneratedIgnoresOthers(users: seq<string>, i: nat, messages: seq<Conversation.StoredMessage>, user: string, y: int, env: Env)
    requires i <= |users|
    requires forall p :: env.llm(p).Answered?
    requires forall k :: i <= k < |users| ==> users[k] != user
    ensures Generated(users, i, DeleteDay(messages, user, y), env) == Generated(users, i, messages, env)
    decreases |users| - i
  {
    if i < |users| {
      OtherSelectionKept(messages, user, y, users[i], env.midnight(i));
      GeneratedIgnoresOthers(users, i + 1, messages, user, y, env);
    }
  }

  /** The whole run, for the users `User.find({})` returns (each once):
      when nothing fails it exits with 0 after writing exactly the journals
      `Generated` describes and deleting exactly the swept messages. */
  lemma RunWritesEachJournal(users: seq<string>, st: Store, env: Env)
    requires DistinctFrom(users, 0)
    requires forall p :: env.llm(p).Answered?
    requires forall k :: env.fault(k) == NoFault
    ensures var r := Run(users, st, env);
      && r.exitCode == 0
      && r.store.journals == st.journals + Generated(users, 0, st.messages, env)
      && forall m :: multiset(r.store.messages)[m] == if Swept(m, users, 0, env) then 0 else multiset(st.messages)[m]
  {
    NoFaultWritesEachJournal(users, 0, st, env);
  }

  /** When the model always answers and no write throws, the run exits with
      0, every user (from the `i`-th on) who had messages yesterday gets
      exactly the journal holding the model's reply, in turn order, and
      exactly the messages in those users' day windows are deleted. */
  lemma {:induction false} NoFaultWritesEachJournal(users: seq<string>, i: nat, st: Store, env: Env)
    requires i <= |users| && DistinctFrom(users, i)
    requires forall p :: env.llm(p).Answered?
    requires forall k :: env.fault(k) == NoFault
    ensures var r := RunFrom(users, i, st, env);
      && r.exitCode == 0
      && r.store.journals == st.journals + Generated(users, i, st.messages, env)
      && forall m :: multiset(r.store.messages)[m] == if Swept(m, users, i, env) then 0 else multiset(st.messages)[m]
    decreases |users| - i
  {
    if i < |users| {
      var next := NoFaultStep(users, i, st, env);
      NoFaultWritesEachJournal(users, i + 1, next, env);
      SweptStep(users, i, env);
    } else {
      assert st.journals + [] == st.journals;
    }
  }

  /** `after` lacks exactly the messages of `user`'s day starting at `y`. */
  ghost predicate DayRemoved(before: seq<Conversation.StoredMessage>, after: seq<Conversation.StoredMessage>, user: string, y: int) {
    forall m :: multiset(after)[m] == if Conversation.InHalfOpenWindow(m, user, y, y + Conversation.MsPerDay) then 0 else multiset(before)[m]
  }

  /** One turn of a run in which nothing fails: the run carries on from the
      store after the turn, which holds the journal of the turn's user and
      lacks exactly that user's messages of the day. */
  lemma NoFaultStep(users: seq<string>, i: nat, st: Store, env: Env) returns (next: Store)
    requires i < |users| && DistinctFrom(users, i)
    requires forall p :: env.llm(p).Answered?
    requires env.fault(i) == NoFault
    ensures RunFrom(users, i, st, env) == RunFrom(users, i + 1, next, env)
    ensures st.journals + Generated(users, i, st.messages, env) == next.journals + Generated(users, i + 1, next.messages, env)
    ensures DayRemoved(st.messages, next.messages, users[i], env.midnight(i))
  {
    if |Yesterday(st.messages, users[i], env.midnight(i))| == 0 {
      QuietTurn(users, i, st, env);
      next := st;
    } else {
      var j := BusyJournal(users, i, st.messages, env);
      BusyTurn(i, users[i], st, env, j);
      next := Store(DeleteDay(st.messages, users[i], env.midnight(i)), st.journals + [j]);
      BusyJournals(users, i, st.messages, env, st.journals, j);
      DeleteDayRemoved(st.messages, users[i], env.midnight(i));
    }
    RunContinues(users, i, st, env, next);
  }

  /** A turn that carries on hands its store to the rest of the run. */
  lemma RunContinues(users: seq<string>, i: nat, st: Store, env: Env, next: Store)
    requires i < |users|
    requires ProcessUser(i, users[i], st, env) == Continue(next)
    ensures RunFrom(users, i, st, env) == RunFrom(users, i + 1, next, env)
  {
  }

  /** A user without messages yesterday: nothing changes. */
  lemma QuietTurn(users: seq<string>, i: nat, st: Store, env: Env)
    requires i < |users|
    requires forall p :: env.llm(p).Answered?
    requires |Yesterday(st.messages, users[i], env.midnight(i))| == 0
    ensures ProcessUser(i, users[i], st, env) == Continue(st)
    ensures Generated(users, i, st.messages, env) == Generated(users, i + 1, st.messages, env)
    ensures DayRemoved(st.messages, st.messages, users[i], env.midnight(i))
  {
    var u := users[i];
    var y := env.midnight(i);
    var sel := Yesterday(st.messages, u, y);
    forall m | Conversation.InHalfOpenWindow(m, u, y, y + Conversation.MsPerDay)
      ensures multiset(st.messages)[m] == 0
    {
      assert multiset(sel)[m] == multiset(st.messages)[m];
    }
  }

  /** A user with messages yesterday, an answer and no failing write: the
      journal holding the answer is appended and the day's messages are
      deleted. */
  lemma BusyTurn(i: nat, user: string, st: Store, env: Env, j: Journal)
    requires Reply(st.messages, user, env.midnight(i), env).Answered?
    requires env.fault(i) == NoFault
    requires |Yesterday(st.messages, user, env.midnight(i))| > 0
    requires j == Journal(user, env.midnight(i), Reply(st.messages, user, env.midnight(i), env).response, "neutral", true)
    ensures ProcessUser(i, user, st, env) == Continue(Store(DeleteDay(st.messages, user, env.midnight(i)), st.journals + [j]))
  {
  }

  /** After a busy turn the journals still to come are those of the run from
      the next user on, computed from the store before the turn. */
  lemma BusyJournals(users: seq<string>, i: nat, messages: seq<Conversation.StoredMessage>, env: Env, journals: seq<Journal>, j: Journal)
    requires i < |users| && DistinctFrom(users, i)
    requires forall p :: env.llm(p).Answered?
    requires Generated(users, i, messages, env) == [j] + Generated(users, i + 1, messages, env)
    ensures journals + Generated(users, i, messages, env)
         == (journals + [j]) + Generated(users, i + 1, DeleteDay(messages, users[i], env.midnight(i)), env)
  {
    GeneratedIgnoresOthers(users, i + 1, messages, users[i], env.midnight(i), env);
  }

  /** The journal a user with messages yesterday gets heads the journals of
      the run from that user on. */
  lemma BusyJournal(users: seq<string>, i: nat, messages: seq<Conversation.StoredMessage>, env: Env) returns (j: Journal)
    requires i < |users|
    requires forall p :: env.llm(p).Answered?
    requires |Yesterday(messages, users[i], env.midnight(i))| > 0
    ensures j == Journal(users[i], env.midnight(i), Reply(messages, users[i], env.midnight(i), env).response, "neutral", true)
    ensures Generated(users, i, messages, env) == [j] + Generated(users, i + 1, messages, env)
  {
    j := Journal(users[i], env.midnight(i), Reply(messages, users[i], env.midnight(i), env).response, "neutral", true);
  }

  lemma DeleteDayRemoved(messages: seq<Conversation.StoredMessage>, user: string, y: int)
    ensures DayRemoved(messages, DeleteDay(messages, user, y), user, y)
  {
  }

  /** A message is swept from the `i`-th user on iff it is in that user's
      window or swept from the next user on. */
  lemma SweptStep(users: seq<string>, i: nat, env: Env)
    requires i < |users|
    ensures forall m :: Swept(m, users, i, env) <==>
      Conversation.InHalfOpenWindow(m, users[i], env.midnight(i), env.midnight(i) + Conversation.MsPerDay) || Swept(m, users, i + 1, env)
  {
  }

  // ---------------------------------------------------------------------------
  // The save as written

  /** The journal schema's required string fields, `content` and `title`:
      `save()` rejects a document in which either is missing or empty. */
  predicate SchemaAccepts(content: Option<string>, title: Option<string>) {
    content.Some? && |content.value| > 0 && title.Some? && |title.value| > 0
  }

  /** The script's document sets no `title`, so the schema rejects every
      journal it builds, whatever the model wrote. */
  function ScriptSave(j: Journal): (f: StoreFault)
    ensures f == SaveFails
  {
    if SchemaAccepts(j.content, None) then NoFault else SaveFails
  }

  /** The `k`-th turn's save is judged as written: when the model answered,
      the fault of that turn is `ScriptSave` of the document the turn builds. */
  predicate SavedAsWritten(k: nat, user: string, messages: seq<Conversation.StoredMessage>, env: Env) {
    var y := env.midnight(k);
    var reply := Reply(messages, user, y, env);
    reply.Answered? ==> env.fault(k) == ScriptSave(Journal(user, y, reply.response, "neutral", true))
  }

  /** The run as written: each turn's save is the schema's verdict on the
      document without a title. Nothing is ever written or deleted, and the
      process exits with 0 exactly when no user from the `i`-th on had
      messages yesterday. */
  lemma {:induction false} AsWrittenSavesNothing(users: seq<string>, i: nat, st: Store, env: Env)
    requires i <= |users|
    requires forall k :: i <= k < |users| ==> SavedAsWritten(k, users[k], st.messages, env)
    ensures var r := RunFrom(users, i, st, env);
      && r.store == st
      && (r.exitCode == 0 <==> forall k :: i <= k < |users| ==> |Yesterday(st.messages, users[k], env.midnight(k))| == 0)
    decreases |users| - i
  {
    if i < |users| {
      var t := ProcessUser(i, users[i], st, env);
      var quiet := |Yesterday(st.messages, users[i], env.midnight(i))| == 0;
      AsWrittenTurn(i, users[i], st, env);
      if quiet {
        AsWrittenSavesNothing(users, i + 1, st, env);
      }
    }
  }

  /** One turn with its save judged as written: a user without messages
      yesterday is skipped, any other ends the run with 1, and the store is
      untouched. */
  lemma AsWrittenTurn(i: nat, user: string, st: Store, env: Env)
    requires SavedAsWritten(i, user, st.messages, env)
    ensures ProcessUser(i, user, st, env)
      == if |Yesterday(st.messages, user, env.midnight(i))| == 0 then Continue(st) else Exit(1, st)
  {
    var y := env.midnight(i);
    var reply := Reply(st.messages, user, y, env);
    if reply.Answered? {
      assert env.fault(i) == SaveFails;
    }
  }

  /** The save once the document carries a `title`: the schema trims the
      title, then accepts the document exactly when the trimmed title and the
      model's content are non-empty; a save never fails as a delete. */
  function CorrectedSave(j: Journal, title: string): (f: StoreFault)
    ensures f == NoFault <==> |Text.Trim(title)| > 0 && j.content.Some? && |j.content.value| > 0
    ensures f != DeleteFails
  {
    StoredSave(j, Text.Trim(title))
  }

  /** The schema's verdict on a document whose stored (trimmed) title is
      `stored`. */
  function StoredSave(j: Journal, stored: string): (f: StoreFault)
    ensures f == NoFault <==> |stored| > 0 && j.content.Some? && |j.content.value| > 0
    ensures f != DeleteFails
  {
    if SchemaAccepts(j.content, Some(stored)) then NoFault else SaveFails
  }

  /** A reply the corrected save accepts: answered with non-empty content. */
  predicate Substantial(reply: Conversation.LlmOutcome) {
    reply.Answered? && reply.response.Some? && |reply.response.value| > 0
  }

  /** A journal whose content is present and not empty. */
  predicate HasText(j: Journal) {
    j.content.Some? && |j.content.value| > 0
  }

  /** Every journal of `js` has text. */
  predicate AllHaveText(js: seq<Journal>) {
    |js| == 0 || (HasText(js[0]) && AllHaveText(js[1..]))
  }

  /** The journal at any position of a list that all has text has text. */
  lemma {:induction false} HaveTextAt(js: seq<Journal>, k: nat)
    requires AllHaveText(js) && k < |js|
    ensures HasText(js[k])
  {
    if k > 0 {
      HaveTextAt(js[1..], k - 1);
    }
  }

  /** When every reply of the model is substantial, every journal the
      no-fault run writes has text. */
  lemma {:induction false} GeneratedHaveText(users: seq<string>, i: nat, messages: seq<Conversation.StoredMessage>, env: Env)
    requires i <= |users|
    requires forall p :: env.llm(p).Answered?
    requires forall p :: Substantial(env.llm(p))
    ensures AllHaveText(Generated(users, i, messages, env))
    decreases |users| - i
  {
    if i < |users| {
      GeneratedHaveText(users, i + 1, messages, env);
      HaveTextStep(users, i, messages, env);
    } else {
      assert Generated(users, i, messages, env) == [];
    }
  }

  /** One turn: the current user's journal, if any, holds a substantial
      reply, ahead of the later users' journals. */
  lemma HaveTextStep(users: seq<string>, i: nat, messages: seq<Conversation.StoredMessage>, env: Env)
    requires i < |users|
    requires forall p :: env.llm(p).Answered?
    requires forall p :: Substantial(env.llm(p))
    requires AllHaveText(Generated(users, i + 1, messages, env))
    ensures AllHaveText(Generated(users, i, messages, env))
  {
    var y := env.midnight(i);
    if |Yesterday(messages, users[i], y)| > 0 {
      var j := BusyJournal(users, i, messages, env);
      assert Substantial(Reply(messages, users[i], y, env));
      HaveTextCons(j, Generated(users, i + 1, messages, env));
    } else {
      assert Generated(users, i, messages, env) == Generated(users, i + 1, messages, env);
    }
  }

  /** A journal with text in front of journals with text. */
  lemma HaveTextCons(j: Journal, rest: seq<Journal>)
    requires HasText(j) && AllHaveText(rest)
    ensures AllHaveText([j] + rest)
  {
    assert ([j] + rest)[1..] == rest;
  }

  /** With a title that is not blank and every reply substantial, the
      corrected save accepts every journal the no-fault run writes, so the
      no-fault run is the one the corrected script performs. */
  lemma GeneratedPassesSchema(users: seq<string>, messages: seq<Conversation.StoredMessage>, env: Env, title: string)
    requires forall p :: env.llm(p).Answered?
    requires forall p :: Substantial(env.llm(p))
    requires |Text.Trim(title)| > 0
    ensures var g := Generated(users, 0, messages, env);
      forall k :: 0 <= k < |g| ==> CorrectedSave(g[k], title) == NoFault
  {
    var g := Generated(users, 0, messages, env);
    GeneratedHaveText(users, 0, messages, env);
    forall k | 0 <= k < |g| ensures CorrectedSave(g[k], title) == NoFault {
      HaveTextAt(g, k);
    }
  }
}
