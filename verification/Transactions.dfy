module Transactions {
  // The tracked transaction state of session_actor.rs, against a model of the server's own.

  import opened Wrappers
  import opened CommandWords

  datatype Txn = Idle | InTransaction | FailedTransaction

  // ---- the tracker ----

  predicate HasAndChain(tokens: seq<string>) {
    exists k :: 0 <= k < |tokens| - 1 && tokens[k] == "AND" && tokens[k + 1] == "CHAIN"
  }

  function AfterSuccess(txn: Txn, sql: string): Txn {
    var tokens := Words(sql, 5);
    var first := FirstKeyword(sql);
    if first == "BEGIN" || first == "START" then InTransaction
    else if first == "ROLLBACK" && "TO" in tokens then InTransaction
    else if first == "COMMIT" || first == "END" || first == "ROLLBACK" || first == "ABORT" then
      if HasAndChain(tokens) then InTransaction else Idle
    else if first == "PREPARE" && |tokens| > 1 && tokens[1] == "TRANSACTION" then Idle
    else txn
  }

  /** txn_after_error: all there is to an error before the rows are asked for. */
  function AfterPreparationError(txn: Txn): Txn {
    if txn == Idle then Idle else FailedTransaction
  }

  /** An error in the row stream looks at the words first. */
  function AfterStreamError(txn: Txn, sql: string): Txn {
    var words := Words(sql, 5);
    if |words| > 0 && (words[0] == "COMMIT" || words[0] == "END") && !(|words| > 1 && words[1] == "PREPARED") then Idle
    else AfterPreparationError(txn)
  }

  // ---- the server, over PostgreSQL's transaction control statements ----

  datatype Noise = NoNoise | Work | Transaction
  datatype Chain = Unsaid | AndChain | AndNoChain

  datatype Command =
    | Begin(modes: seq<string>)
    | Start(modes: seq<string>)
    | Commit(end: bool, noise: Noise, chain: Chain)
    | Rollback(abort: bool, noise: Noise, chain: Chain)
    | RollbackTo(noise: Noise, savepoint: seq<string>)
    | PrepareTransaction
    | CommitPrepared
    | RollbackPrepared
    | PrepareStatement(name: seq<string>, body: seq<string>)
    | Other(words: seq<string>)

  const CONTROL: set<string> := {"BEGIN", "START", "COMMIT", "END", "ROLLBACK", "ABORT", "PREPARE"}

  function NoiseWords(n: Noise): seq<string> {
    match n
    case NoNoise => []
    case Work => ["WORK"]
    case Transaction => ["TRANSACTION"]
  }

  function ChainWords(c: Chain): seq<string> {
    match c
    case Unsaid => []
    case AndChain => ["AND", "CHAIN"]
    case AndNoChain => ["AND", "NO", "CHAIN"]
  }

  /**
   * The words of a command up to its first other token, upper-cased. A savepoint or statement
   * name is one word when bare and none when quoted.
   */
  function WordsOf(c: Command): seq<string> {
    match c
    case Begin(modes) => ["BEGIN"] + modes
    case Start(modes) => ["START", "TRANSACTION"] + modes
    case Commit(end, noise, chain) => [if end then "END" else "COMMIT"] + NoiseWords(noise) + ChainWords(chain)
    case Rollback(abort, noise, chain) => [if abort then "ABORT" else "ROLLBACK"] + NoiseWords(noise) + ChainWords(chain)
    case RollbackTo(noise, savepoint) => ["ROLLBACK"] + NoiseWords(noise) + ["TO"] + savepoint
    case PrepareTransaction => ["PREPARE", "TRANSACTION"]
    case CommitPrepared => ["COMMIT", "PREPARED"]
    case RollbackPrepared => ["ROLLBACK", "PREPARED"]
    case PrepareStatement(name, body) => ["PREPARE"] + name + body
    case Other(words) => words
  }

  predicate WellFormed(c: Command) {
    && (c.Other? ==> c.words == [] || c.words[0] !in CONTROL)
    && (c.PrepareStatement? ==> |c.name| <= 1 && (c.name == [] ==> c.body == []))
  }

  function FirstFive(s: seq<string>): seq<string> {
    if |s| <= 5 then s else s[..5]
  }

  ghost predicate Says(sql: string, c: Command) {
    WellFormed(c) && Words(sql, 5) == FirstFive(WordsOf(c))
  }

  /**
   * How an execution ends. An error can come while the statement is prepared, or in the row
   * stream: from the command itself, or, Interrupted, before the command took effect. NotRun:
   * the cancellation was seen before the rows were asked for. Lost: the connection is gone.
   */
  datatype Outcome = Succeeded | Failed | Interrupted | PreparationFailed | NotRun | Lost

  function Ended(chain: Chain): Txn {
    if chain == AndChain then InTransaction else Idle
  }

  function Aborted(s: Txn): Txn {
    if s == Idle then Idle else FailedTransaction
  }

  /** The server's next state; None when the server never answers this way. */
  function Server(s: Txn, c: Command, o: Outcome): Option<Txn> {
    if o == Interrupted || o == PreparationFailed then Some(Aborted(s))
    else if o == NotRun then Some(s)
    else if o == Lost then Some(Idle)
    else
      var ok := o == Succeeded;
      match c
      case Begin(_) => ServerBegin(s, ok)
      case Start(_) => ServerBegin(s, ok)
      case Commit(_, _, chain) =>
        if s == Idle then (if ok && chain == AndChain then None else Some(Idle))
        else if ok then Some(Ended(chain))
        else if s == InTransaction then Some(Idle)
        else None
      case Rollback(_, _, chain) =>
        if s == Idle then (if ok == (chain == AndChain) then None else Some(Idle))
        else if ok then Some(Ended(chain))
        else None
      case RollbackTo(_, _) => if ok then (if s == Idle then None else Some(InTransaction)) else Some(Aborted(s))
      case PrepareTransaction => if !ok && s == FailedTransaction then None else Some(Idle)
      case CommitPrepared => ServerOutside(s, ok)
      case RollbackPrepared => ServerOutside(s, ok)
      case PrepareStatement(_, _) => ServerPlain(s, ok)
      case Other(_) => ServerPlain(s, ok)
  }

  function ServerBegin(s: Txn, ok: bool): Option<Txn> {
    if !ok then Some(Aborted(s)) else if s == FailedTransaction then None else Some(InTransaction)
  }

  /** COMMIT PREPARED and ROLLBACK PREPARED are refused inside a transaction block. */
  function ServerOutside(s: Txn, ok: bool): Option<Txn> {
    if !ok then Some(Aborted(s)) else if s == Idle then Some(Idle) else None
  }

  function ServerPlain(s: Txn, ok: bool): Option<Txn> {
    if !ok then Some(Aborted(s)) else if s == FailedTransaction then None else Some(s)
  }

  // ---- one statement ----

  function Tracked(txn: Txn, sql: string, o: Outcome): Txn {
    match o
    case Succeeded => AfterSuccess(txn, sql)
    case Failed => AfterStreamError(txn, sql)
    case Interrupted => AfterStreamError(txn, sql)
    case PreparationFailed => AfterPreparationError(txn)
    case NotRun => txn
    case Lost => AfterStreamError(Idle, sql)
  }

  /** The three cases in which the tracker takes another turn than the server. */
  predicate Drifts(s: Txn, c: Command, o: Outcome) {
    || (c.PrepareTransaction? && o == Failed && s == InTransaction)
    || (c.PrepareStatement? && c.name == ["TRANSACTION"] && o == Succeeded && s == InTransaction)
    || (c.Commit? && o == Interrupted && s != Idle)
  }

  lemma FirstOf(sql: string, c: Command)
    requires Says(sql, c) && WordsOf(c) != []
    ensures FirstKeyword(sql) == WordsOf(c)[0] == Words(sql, 5)[0]
  {
    FirstKeywordIsFirstWord(sql);
  }

  lemma EndingWords(first: string, noise: Noise, chain: Chain)
    requires first != "AND" && first != "CHAIN" && first != "TO"
    ensures var w := [first] + NoiseWords(noise) + ChainWords(chain);
      |w| <= 5 && "TO" !in w && (HasAndChain(w) <==> chain == AndChain)
  {
    var w := [first] + NoiseWords(noise) + ChainWords(chain);
    var n := 1 + |NoiseWords(noise)|;
    if chain == AndChain {
      assert w[n] == "AND" && w[n + 1] == "CHAIN";
    }
  }

  lemma EndingFollows(s: Txn, sql: string, c: Command, o: Outcome)
    requires Says(sql, c) && (c.Commit? || c.Rollback?) && Server(s, c, o).Some?
    ensures Tracked(s, sql, o) == Server(s, c, o).value <==> !Drifts(s, c, o)
  {
    hide HasAndChain, Words, FirstKeyword;
    FirstOf(sql, c);
    var first := WordsOf(c)[0];
    EndingWords(first, c.noise, c.chain);
    assert WordsOf(c) == [first] + NoiseWords(c.noise) + ChainWords(c.chain);
    assert Words(sql, 5) == WordsOf(c);
    assert |Words(sql, 5)| > 1 ==> Words(sql, 5)[1] in ["WORK", "TRANSACTION", "AND"];
  }

  lemma RollbackToFollows(s: Txn, sql: string, c: Command, o: Outcome)
    requires Says(sql, c) && c.RollbackTo? && Server(s, c, o).Some?
    ensures Tracked(s, sql, o) == Server(s, c, o).value
  {
    hide HasAndChain, Words, FirstKeyword;
    FirstOf(sql, c);
    var k := 1 + |NoiseWords(c.noise)|;
    assert WordsOf(c)[k] == "TO" && WordsOf(c)[0] == "ROLLBACK";
    assert Words(sql, 5)[k] == "TO";
  }

  lemma PrepareFollows(s: Txn, sql: string, c: Command, o: Outcome)
    requires Says(sql, c) && (c.PrepareTransaction? || c.PrepareStatement?) && Server(s, c, o).Some?
    ensures Tracked(s, sql, o) == Server(s, c, o).value <==> !Drifts(s, c, o)
  {
    hide HasAndChain, Words, FirstKeyword;
    FirstOf(sql, c);
    var words := Words(sql, 5);
    assert words[0] == "PREPARE";
    if c.PrepareStatement? {
      assert |words| > 1 <==> c.name != [];
      assert c.name != [] ==> words[1] == c.name[0] && c.name == [c.name[0]];
    }
  }

  lemma PreparedFollows(s: Txn, sql: string, c: Command, o: Outcome)
    requires Says(sql, c) && (c.CommitPrepared? || c.RollbackPrepared?) && Server(s, c, o).Some?
    ensures Tracked(s, sql, o) == Server(s, c, o).value
  {
    hide Words, FirstKeyword;
    FirstOf(sql, c);
    assert Words(sql, 5) == WordsOf(c);
    assert WordsOf(c)[1] == "PREPARED";
  }

  /** The tracked state moves with the server's exactly outside the three drifting cases. */
  lemma FollowsIff(s: Txn, sql: string, c: Command, o: Outcome)
    requires Says(sql, c) && Server(s, c, o).Some?
    ensures Tracked(s, sql, o) == Server(s, c, o).value <==> !Drifts(s, c, o)
  {
    hide HasAndChain, Words, FirstKeyword;
    match c {
      case Commit(_, _, _) => EndingFollows(s, sql, c, o);
      case Rollback(_, _, _) => EndingFollows(s, sql, c, o);
      case RollbackTo(_, _) => RollbackToFollows(s, sql, c, o);
      case PrepareTransaction => PrepareFollows(s, sql, c, o);
      case PrepareStatement(_, _) => PrepareFollows(s, sql, c, o);
      case CommitPrepared => PreparedFollows(s, sql, c, o);
      case RollbackPrepared => PreparedFollows(s, sql, c, o);
      case Begin(_) => FirstOf(sql, c);
      case Start(_) => FirstOf(sql, c);
      case Other(words) =>
        FirstKeywordIsFirstWord(sql);
        if words != [] {
          FirstOf(sql, c);
        }
    }
  }

  // ---- page requests ----

  /**
   * How a Table Data page on the same session ends. Answered: with rows, or refused without an SQL
   * error. Failed: an SQL error. Gone: the deadline closed the connection, or it was lost.
   */
  datatype PageEnd = Answered | PageFailed | Gone

  function ServerPage(s: Txn, e: PageEnd): Option<Txn> {
    match e
    case Answered => if s == FailedTransaction then None else Some(s)
    case PageFailed => Some(Aborted(s))
    case Gone => Some(Idle)
  }

  /** The actor leaves the tracked state as it is, whatever becomes of the page. */
  function TrackedPage(txn: Txn, e: PageEnd): Txn {
    txn
  }

  /** A page that fails inside an open block, or takes the connection and its block with it. */
  predicate PageDrifts(s: Txn, e: PageEnd) {
    (e == PageFailed && s == InTransaction) || (e == Gone && s != Idle)
  }

  // ---- whole sessions ----

  datatype Exec = Exec(sql: string, command: Command, outcome: Outcome)

  datatype Request = Statement(exec: Exec) | Page(end: PageEnd)

  ghost predicate WellSaid(q: Request) {
    q.Statement? ==> Says(q.exec.sql, q.exec.command)
  }

  function ServerNext(s: Txn, q: Request): Option<Txn> {
    match q
    case Statement(e) => Server(s, e.command, e.outcome)
    case Page(end) => ServerPage(s, end)
  }

  function TrackedNext(txn: Txn, q: Request): Txn {
    match q
    case Statement(e) => Tracked(txn, e.sql, e.outcome)
    case Page(end) => TrackedPage(txn, end)
  }

  predicate RequestDrifts(s: Txn, q: Request) {
    match q
    case Statement(e) => Drifts(s, e.command, e.outcome)
    case Page(end) => PageDrifts(s, end)
  }

  /** One request of a session, statement or page: the tracked state is right exactly when it does not drift. */
  lemma RequestFollowsIff(s: Txn, q: Request)
    requires WellSaid(q) && ServerNext(s, q).Some?
    ensures TrackedNext(s, q) == ServerNext(s, q).value <==> !RequestDrifts(s, q)
  {
    hide Says, Tracked, Server, Drifts;
    if q.Statement? {
      FollowsIff(s, q.exec.sql, q.exec.command, q.exec.outcome);
    }
  }

  /** The server's state after a run; None when it never answers this way. */
  function ServerRun(s: Txn, run: seq<Request>): Option<Txn>
    decreases |run|
  {
    if run == [] then Some(s)
    else
      var next := ServerNext(s, run[0]);
      if next.None? then None else ServerRun(next.value, run[1..])
  }

  function TrackedRun(txn: Txn, run: seq<Request>): Txn
    decreases |run|
  {
    if run == [] then txn else TrackedRun(TrackedNext(txn, run[0]), run[1..])
  }

  predicate NeverDrifts(s: Txn, run: seq<Request>)
    decreases |run|
  {
    run == [] || (!RequestDrifts(s, run[0])
      && (var next := ServerNext(s, run[0]); next.Some? ==> NeverDrifts(next.value, run[1..])))
  }

  /** Over any session without a drifting step, the tracked state is the server's after every request. */
  lemma {:induction false} SessionFollows(s: Txn, run: seq<Request>, upto: nat)
    requires upto <= |run| && (forall k :: 0 <= k < |run| ==> WellSaid(run[k]))
    requires ServerRun(s, run[..upto]).Some? && NeverDrifts(s, run[..upto])
    ensures TrackedRun(s, run[..upto]) == ServerRun(s, run[..upto]).value
    decreases upto
  {
    hide TrackedNext, ServerNext, RequestDrifts, WellSaid;
    if upto > 0 {
      var part := run[..upto];
      RequestFollowsIff(s, part[0]);
      var next := ServerNext(s, part[0]).value;
      assert part[1..] == run[1..][..upto - 1];
      SessionFollows(next, run[1..], upto - 1);
    }
  }

  // ---- the drifting cases are real ----

  /** A failed PREPARE TRANSACTION ends the transaction on the server; the tracker keeps it, failed. */
  lemma FailedPrepareDrifts(sql: string)
    requires Says(sql, PrepareTransaction)
    ensures Server(InTransaction, PrepareTransaction, Failed) == Some(Idle)
    ensures Tracked(InTransaction, sql, Failed) == FailedTransaction
  {
    hide HasAndChain, Words, FirstKeyword;
    FirstOf(sql, PrepareTransaction);
  }

  /** A prepared statement may be called transaction; the tracker takes it for PREPARE TRANSACTION. */
  lemma StatementNamedTransactionDrifts(sql: string, body: seq<string>)
    requires Says(sql, PrepareStatement(["TRANSACTION"], body))
    ensures Server(InTransaction, PrepareStatement(["TRANSACTION"], body), Succeeded) == Some(InTransaction)
    ensures Tracked(InTransaction, sql, Succeeded) == Idle
  {
    hide HasAndChain, Words, FirstKeyword;
    FirstOf(sql, PrepareStatement(["TRANSACTION"], body));
    assert Words(sql, 5)[1] == "TRANSACTION";
  }

  /**
   * A COMMIT cancelled in the row stream before it begins to commit leaves the block failed and
   * the tracker thinks it over; cancelled while it is prepared, both have the block failed.
   */
  lemma InterruptedCommitDrifts(sql: string, s: Txn, end: bool, noise: Noise, chain: Chain)
    requires Says(sql, Commit(end, noise, chain)) && s != Idle
    ensures Server(s, Commit(end, noise, chain), Interrupted) == Some(FailedTransaction)
    ensures Tracked(s, sql, Interrupted) == Idle
    ensures Tracked(s, sql, PreparationFailed) == FailedTransaction
    ensures Server(s, Commit(end, noise, chain), PreparationFailed) == Some(FailedTransaction)
  {
    hide HasAndChain, Words, FirstKeyword;
    FirstOf(sql, Commit(end, noise, chain));
    EndingWords(if end then "END" else "COMMIT", noise, chain);
    assert Words(sql, 5) == WordsOf(Commit(end, noise, chain));
    assert |Words(sql, 5)| > 1 ==> Words(sql, 5)[1] in ["WORK", "TRANSACTION", "AND"];
  }

  lemma RunOne(s: Txn, txn: Txn, q: Request, s': Txn, txn': Txn)
    requires ServerNext(s, q) == Some(s') && TrackedNext(txn, q) == txn'
    ensures ServerRun(s, [q]) == Some(s') && TrackedRun(txn, [q]) == txn'
  {
    assert [q][1..] == [];
    assert ServerRun(s', []) == Some(s') && TrackedRun(txn', []) == txn';
  }

  lemma RunMore(s: Txn, txn: Txn, q: Request, next: Request, s': Txn, txn': Txn)
    requires ServerNext(s, q) == Some(s') && TrackedNext(txn, q) == txn'
    ensures ServerRun(s, [q, next]) == ServerRun(s', [next]) && TrackedRun(txn, [q, next]) == TrackedRun(txn', [next])
  {
    assert [q, next][1..] == [next];
  }

  /**
   * A page that times out inside a block closes the connection and keeps the block: the statement
   * run next finds an idle server behind a tracker that still counts it in the block.
   */
  lemma PageInBlockDrifts(sql: string, words: seq<string>)
    requires Says(sql, Other(words))
    ensures var run := [Page(Gone), Statement(Exec(sql, Other(words), Succeeded))];
      ServerRun(InTransaction, run) == Some(Idle) && TrackedRun(InTransaction, run) == InTransaction
    ensures ServerRun(InTransaction, [Page(PageFailed)]) == Some(FailedTransaction)
    ensures TrackedRun(InTransaction, [Page(PageFailed)]) == InTransaction
  {
    hide Words, FirstKeyword;
    FollowsIff(InTransaction, sql, Other(words), Succeeded);
    var last := Statement(Exec(sql, Other(words), Succeeded));
    assert Server(Idle, Other(words), Succeeded) == Some(Idle);
    assert TrackedNext(InTransaction, last) == Tracked(InTransaction, sql, Succeeded) == InTransaction;
    hide *;
    RunOne(Idle, InTransaction, last, Idle, InTransaction);
    RunOne(InTransaction, InTransaction, Page(PageFailed), FailedTransaction, InTransaction);
    RunMore(InTransaction, InTransaction, Page(Gone), last, Idle, InTransaction);
  }

  /** Any spelling of a control command, with any comments between its words, says that command. */
  lemma SpellingSays(items: seq<Spaced>, tail: string, c: Command)
    requires WellSpaced(items, tail) && WellFormed(c) && Uppers(items) == WordsOf(c)
    requires forall k: nat :: k <= 5 ==> Words(tail, k) == []
    ensures Says(Render(items, tail), c)
  {
    WordsOfRendered(items, tail, 5);
    WordsThenPunctuation(items, tail, 5);
    assert |Uppers(items)| == |items|;
  }
}
