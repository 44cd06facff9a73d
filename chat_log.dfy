/** The session's chat transcript (app.py, the `chat` list kept in the session state).

    The transcript is an append-only list of (role, message, timestamp)
    entries. It starts empty, and every answered question appends two
    entries, the user's question and then the bot's answer, both stamped
    with the same time. The answer of the language model and the clock
    reading are inputs here.
 */
module ChatLog {

  /** The sender of an entry; the program writes them as the strings "user" and "bot". */
  datatype Role = User | Bot

  function RoleName(r: Role): string {
    match r
    case User => "user"
    case Bot => "bot"
  }

  /** One (role, message, timestamp) entry of the transcript. */
  datatype Entry = Entry(role: Role, message: string, time: string)

  /** One answered question: what was asked, what came back, and when. */
  datatype Exchange = Exchange(question: string, answer: string, time: string)

  /** What the question-answering chain produced: an answer, or an error raised before
      anything was appended. */
  datatype Reply = Answered(text: string) | Failed

  /** The two entries one answered question appends. */
  function Turn(x: Exchange): seq<Entry> {
    [Entry(User, x.question, x.time), Entry(Bot, x.answer, x.time)]
  }

  /** The transcript that a sequence of answered questions leaves behind, oldest first. */
  function Transcript(xs: seq<Exchange>): seq<Entry> {
    if xs == [] then [] else Transcript(xs[..|xs| - 1]) + Turn(xs[|xs| - 1])
  }

  /** Entries 2k and 2k+1 are a question and its answer: the user's entry, then the
      bot's, with one timestamp. */
  predicate PairAt(log: seq<Entry>, k: nat) {
    && 2 * k + 1 < |log|
    && log[2 * k].role == User
    && log[2 * k + 1].role == Bot
    && log[2 * k + 1].time == log[2 * k].time
  }

  /** A transcript shape: an even number of entries, made of question/answer pairs. */
  predicate WellFormed(log: seq<Entry>) {
    && |log| % 2 == 0
    && forall k: nat :: k < |log| / 2 ==> PairAt(log, k)
  }

  /** Reads the answered questions back out of a transcript, one pair of entries at a time. */
  function Exchanges(log: seq<Entry>): seq<Exchange> {
    if |log| < 2 then []
    else Exchanges(log[..|log| - 2]) + [Exchange(log[|log| - 2].message, log[|log| - 1].message, log[|log| - 2].time)]
  }

  /** The analytics view's question count, len(chat) // 2. */
  function QuestionCount(log: seq<Entry>): nat {
    |log| / 2
  }

  /** Entry 2i of the transcript is question i and entry 2i+1 its answer, with one timestamp. */
  lemma {:induction false} TranscriptAt(xs: seq<Exchange>)
    ensures |Transcript(xs)| == 2 * |xs|
    ensures forall i :: 0 <= i < |xs| ==>
      Transcript(xs)[2 * i] == Entry(User, xs[i].question, xs[i].time) &&
      Transcript(xs)[2 * i + 1] == Entry(Bot, xs[i].answer, xs[i].time)
  {
    if xs != [] {
      var front := xs[..|xs| - 1];
      TranscriptAt(front);
      forall i | 0 <= i < |xs|
        ensures Transcript(xs)[2 * i] == Entry(User, xs[i].question, xs[i].time)
        ensures Transcript(xs)[2 * i + 1] == Entry(Bot, xs[i].answer, xs[i].time)
      {
        if i < |front| {
          assert xs[i] == front[i];
        }
      }
    }
  }

  /** Whatever was asked, the transcript alternates user and bot and has even length. */
  lemma TranscriptWellFormed(xs: seq<Exchange>)
    ensures WellFormed(Transcript(xs))
  {
    TranscriptAt(xs);
  }

  /** In a well-formed transcript the roles alternate, starting with the user. */
  lemma WellFormedRoles(log: seq<Entry>)
    requires WellFormed(log)
    ensures forall i :: 0 <= i < |log| ==> log[i].role == (if i % 2 == 0 then User else Bot)
  {
    forall i | 0 <= i < |log|
      ensures log[i].role == (if i % 2 == 0 then User else Bot)
    {
      var k: nat := i / 2;
      assert PairAt(log, k);
    }
  }

  /** The question count of a transcript is the number of answered questions. */
  lemma QuestionCountOfTranscript(xs: seq<Exchange>)
    ensures QuestionCount(Transcript(xs)) == |xs|
  {
    TranscriptAt(xs);
  }

  /** No answered question is lost: they can all be read back from the transcript. */
  lemma {:induction false} ExchangesOfTranscript(xs: seq<Exchange>)
    ensures Exchanges(Transcript(xs)) == xs
  {
    if xs != [] {
      var front := xs[..|xs| - 1];
      var log := Transcript(xs);
      ExchangesOfTranscript(front);
      TranscriptAt(front);
      assert log[..|log| - 2] == Transcript(front);
      assert xs == front + [xs[|xs| - 1]];
    }
  }

  /** Every well-formed transcript is the transcript of the questions read back from it. */
  lemma {:induction false} TranscriptOfExchanges(log: seq<Entry>)
    requires WellFormed(log)
    ensures Transcript(Exchanges(log)) == log
    decreases |log|
  {
    if |log| >= 2 {
      var n := |log|;
      var front := log[..n - 2];
      WellFormedFront(log);
      TranscriptOfExchanges(front);
      var x := Exchange(log[n - 2].message, log[n - 1].message, log[n - 2].time);
      var xs := Exchanges(log);
      assert xs == Exchanges(front) + [x];
      assert xs[..|xs| - 1] == Exchanges(front);
      assert Transcript(xs) == front + Turn(x);
      assert Turn(x) == [log[n - 2], log[n - 1]] by {
        var k: nat := n / 2 - 1;
        assert PairAt(log, k);
        assert 2 * k == n - 2;
      }
      assert log[n - 2..] == [log[n - 2], log[n - 1]];
      assert log == front + log[n - 2..];
    }
  }

  /** Dropping the last question and answer of a well-formed transcript keeps it well-formed. */
  lemma WellFormedFront(log: seq<Entry>)
    requires WellFormed(log) && |log| >= 2
    ensures WellFormed(log[..|log| - 2])
  {
    var front := log[..|log| - 2];
    forall k: nat | k < |front| / 2
      ensures PairAt(front, k)
    {
      assert PairAt(log, k);
    }
  }

  /** The session's chat transcript, grown in place by each answered question. */
  class ChatSession {
    var chat: seq<Entry>
    ghost var answered: seq<Exchange>

    ghost predicate Valid()
      reads this
    {
      chat == Transcript(answered)
    }

    /** The empty transcript a new session starts with. */
    constructor ()
      ensures Valid()
      ensures chat == [] && answered == []
    {
      chat := [];
      answered := [];
    }

    /** One run of the chat view: a non-empty question whose chain call answered appends the
        question and then the answer, both stamped `timestamp`; an empty question or a
        failed call leaves the transcript as it was. */
    method Ask(question: string, reply: Reply, timestamp: string)
      requires Valid()
      modifies this
      ensures Valid()
      ensures question != [] && reply.Answered? ==>
        && answered == old(answered) + [Exchange(question, reply.text, timestamp)]
        && chat == old(chat) + [Entry(User, question, timestamp), Entry(Bot, reply.text, timestamp)]
      ensures question == [] || reply.Failed? ==> chat == old(chat) && answered == old(answered)
      ensures old(chat) <= chat
    {
      if question != [] && reply.Answered? {
        var x := Exchange(question, reply.text, timestamp);
        assert (answered + [x])[..|answered|] == answered;
        chat := chat + [Entry(User, question, timestamp)];
        chat := chat + [Entry(Bot, reply.text, timestamp)];
        answered := answered + [x];
      }
    }

    /** The analytics count of questions: the number of questions answered so far. */
    method Questions() returns (n: nat)
      requires Valid()
      ensures n == |answered|
      ensures WellFormed(chat)
    {
      QuestionCountOfTranscript(answered);
      TranscriptWellFormed(answered);
      n := QuestionCount(chat);
    }
  }
}
