/**
 * `Terminator`: counts the ranks still computing and drains completion notices for
 * the jobs this rank sent, until neither remain.
 */
module Termination {
  import opened Wrappers
  import opened Listener

  /** First word of the two-word termination message. */
  const PRIMARY: int := -1
  const SECONDARY: int := -2

  /** A two-word message on the termination channel, addressed to rank `to`. */
  datatype Message = Message(to: int, tag: int, value: int)

  datatype Terminator = Terminator(activeNodes: int, started: bool)

  /** The constructor: every rank of the communicator starts active. */
  function NewTerminator(size: nat): (r: Terminator)
    ensures r.activeNodes == size && !r.started
  {
    Terminator(size, false)
  }

  /** `execute`: starting twice throws. */
  function Execute(t: Terminator): (r: Result<Terminator>)
    ensures r.Ok? <==> !t.started
    ensures r.Err? ==> r.error == IllegalState
    ensures r.Ok? ==> r.value.started && r.value.activeNodes == t.activeNodes
  {
    if t.started then Err(IllegalState) else Ok(t.(started := true))
  }

  lemma ExecuteTwiceFails(t: Terminator)
    requires Execute(t).Ok?
    ensures Execute(Execute(t).value) == Err(IllegalState)
  {
  }

  /** `sendTerminationNotification`: rank `rank` tells every rank, itself included, that it is done. */
  function TerminationMessages(rank: int, size: nat): (r: seq<Message>)
    ensures |r| == size
    ensures forall i | 0 <= i < size :: r[i] == Message(i, PRIMARY, rank)
  {
    seq(size, i => Message(i, PRIMARY, rank))
  }

  /** `sendTaskCompletedNotification`: the job's parent id goes back to the rank that sent the job. */
  function CompletedMessage(task: Task): (r: Message)
    ensures r.to == task.source && r.tag == SECONDARY && r.value == task.parent
  {
    Message(task.source, SECONDARY, task.parent)
  }

  /** The loop condition of `run`. */
  predicate Running(t: Terminator, l: Listener)
  {
    HasIncompleteRequests(l) || t.activeNodes > 0
  }

  /** One received message: a rank finished, or one of our jobs did; other tags are ignored. */
  function Receive(t: Terminator, l: Listener, m: Message): (r: Result<(Terminator, Listener)>)
    ensures m.tag == PRIMARY ==> r == Ok((t.(activeNodes := t.activeNodes - 1), l))
    ensures m.tag == SECONDARY ==> r.Ok? == OnRemoteTaskFinished(l, m.value).Ok?
    ensures m.tag == SECONDARY && r.Ok? ==> r.value == (t, OnRemoteTaskFinished(l, m.value).value)
    ensures m.tag != PRIMARY && m.tag != SECONDARY ==> r == Ok((t, l))
  {
    if m.tag == PRIMARY then Ok((t.(activeNodes := t.activeNodes - 1), l))
    else if m.tag == SECONDARY then
      var l' :- OnRemoteTaskFinished(l, m.value);
      Ok((t, l'))
    else Ok((t, l))
  }

  /** The outcome of `run` on the messages that reach it in order: final state and messages read. */
  datatype Outcome = Outcome(t: Terminator, l: Listener, consumed: nat)

  /**
   * `run`: receive while the loop condition holds. A completion notice for a parent with
   * nothing outstanding throws. Running out of messages leaves the loop blocked in receive.
   */
  function Run(t: Terminator, l: Listener, inbox: seq<Message>): (r: Result<Outcome>)
    decreases |inbox|
    ensures r.Ok? ==> r.value.consumed <= |inbox|
    ensures r.Ok? && r.value.consumed < |inbox| ==> !Running(r.value.t, r.value.l)
    ensures r.Err? ==> r.error == IllegalState
  {
    if !Running(t, l) || |inbox| == 0 then Ok(Outcome(t, l, 0))
    else
      var (t', l') :- Receive(t, l, inbox[0]);
      var rest :- Run(t', l', inbox[1..]);
      Ok(rest.(consumed := rest.consumed + 1))
  }

  /** Termination notices only: the active count drops by one per notice read, the dispatcher is untouched. */
  lemma {:induction false} PrimaryOnly(t: Terminator, l: Listener, inbox: seq<Message>)
    requires forall k | 0 <= k < |inbox| :: inbox[k].tag == PRIMARY
    decreases |inbox|
    ensures Run(t, l, inbox).Ok?
    ensures var o := Run(t, l, inbox).value; o.l == l && o.t.activeNodes == t.activeNodes - o.consumed
    ensures !HasIncompleteRequests(l) && t.activeNodes <= |inbox| ==>
      Run(t, l, inbox).value.consumed == (if t.activeNodes < 0 then 0 else t.activeNodes)
  {
    if Running(t, l) && |inbox| > 0 {
      PrimaryOnly(t.(activeNodes := t.activeNodes - 1), l, inbox[1..]);
    }
  }

  /**
   * With no jobs outstanding, a rank stops exactly once every rank of the communicator has
   * announced the end of its computation, and reads nothing after that.
   */
  lemma AllRanksAnnounce(size: nat, l: Listener, senders: seq<int>)
    requires !HasIncompleteRequests(l) && |senders| == size
    ensures var inbox := seq(size, k requires 0 <= k < size => Message(0, PRIMARY, senders[k]));
      var o := Run(NewTerminator(size), l, inbox);
      o.Ok? && o.value.consumed == size && o.value.t.activeNodes == 0 && !Running(o.value.t, o.value.l)
  {
    var inbox := seq(size, k requires 0 <= k < size => Message(0, PRIMARY, senders[k]));
    PrimaryOnly(NewTerminator(size), l, inbox);
  }

  /** Every rank's notice reaches every rank: rank `i` receives one from each sender. */
  lemma NoticeReachesEveryRank(size: nat, i: int)
    requires 0 <= i < size
    ensures forall rank :: Message(i, PRIMARY, rank) in TerminationMessages(rank, size)
  {
    forall rank ensures Message(i, PRIMARY, rank) in TerminationMessages(rank, size) {
      assert TerminationMessages(rank, size)[i] == Message(i, PRIMARY, rank);
    }
  }

  /**
   * The round trip of a job: the sender counts it, the receiver announces it on completion,
   * and the sender's terminator receiving that notice restores the count.
   */
  lemma JobCompletionRestores(t: Terminator, l: Listener, job: Task)
    requires CountsPositive(l)
    ensures var l1 := AddPending(l, job.parent);
      var r := Receive(t, l1, CompletedMessage(job));
      r.Ok? && r.value.0 == t && r.value.1.pending == l.pending
  {
    DispatchThenFinishRestores(l, job.parent);
  }

  /** A stray completion notice, for a parent with nothing outstanding, makes the loop throw. */
  lemma StrayNoticeFails(t: Terminator, l: Listener, parent: int)
    requires parent !in l.pending && t.activeNodes > 0
    ensures Run(t, l, [Message(0, SECONDARY, parent)]) == Err(IllegalState)
  {
  }
}
