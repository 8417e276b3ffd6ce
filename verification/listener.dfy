/**
 * `SecondaryTaskListener`: the wire format of a job, the bookkeeping of outstanding
 * jobs, and the receive loop as a step function over the commands that arrive.
 */
module Listener {
  import opened Wrappers
  import opened JavaInt
  import opened TreeColorSet
  import opened NodeFactory

  /** First header word of a stop command and of a job. */
  const FINISH: int := -1
  const CREATE: int := -2

  /** The command buffer: source, destination, one length per dimension, sender and parent. */
  function HeaderLength(dims: nat): nat { 3 * dims + 3 }

  /** A range of a colour dimension as the payload carries it: lower and upper endpoint. */
  type Interval = (real, real)

  /** The lower and upper endpoints of each range, in order. */
  function Endpoints(rs: seq<Interval>): (r: seq<real>)
    ensures |r| == 2 * |rs|
    ensures forall k | 0 <= k < |rs| :: r[2 * k] == rs[k].0 && r[2 * k + 1] == rs[k].1
  {
    if |rs| == 0 then [] else [rs[0].0, rs[0].1] + Endpoints(rs[1..])
  }

  /** The data message: the endpoints of dimensions `0 .. n-1`, one dimension after another. */
  function Payload(ranges: seq<seq<Interval>>, n: nat): seq<real>
    requires n <= |ranges|
  {
    if n == 0 then [] else Payload(ranges, n - 1) + Endpoints(ranges[n - 1])
  }

  /** The length field of each dimension: two endpoints per range. */
  function Lengths(ranges: seq<seq<Interval>>, n: nat): (r: seq<int>)
    requires n <= |ranges|
    ensures |r| == n && forall i | 0 <= i < n :: r[i] == 2 * |ranges[i]|
  {
    seq(n, i requires 0 <= i < n => 2 * |ranges[i]|)
  }

  /**
   * The command buffer `dispatchNewTask` sends. Copying `dims` coordinates out of a
   * shorter array, or asking a colour set for a dimension it lacks, throws.
   */
  function EncodeHeader(dims: nat, sender: int, parent: int, source: seq<int>, dest: seq<int>, ranges: seq<seq<Interval>>)
    : (r: Result<seq<int>>)
    ensures r.Err? <==> |source| < dims || |dest| < dims || |ranges| < dims
    ensures r.Err? ==> r.error == IndexOutOfBounds
    ensures r.Ok? ==> |r.value| == HeaderLength(dims) && r.value[0] == CREATE
  {
    if |source| < dims || |dest| < dims || |ranges| < dims then Err(IndexOutOfBounds)
    else
      Ok(seq(3 * dims + 3, k requires 0 <= k < 3 * dims + 3 =>
        if k == 0 then CREATE
        else if k <= dims then source[k - 1]
        else if k <= 2 * dims then dest[k - dims - 1]
        else if k <= 3 * dims then 2 * |ranges[k - 2 * dims - 1]|
        else if k == 3 * dims + 1 then sender
        else parent))
  }

  /** What `run` reads from a job's command buffer; the source coordinates are not read. */
  datatype Header = Header(dest: seq<int>, lengths: seq<int>, sender: int, parent: int)

  function DecodeHeader(dims: nat, buffer: seq<int>): (r: Header)
    requires |buffer| == HeaderLength(dims)
    ensures |r.dest| == dims && |r.lengths| == dims
  {
    Header(buffer[dims + 1 .. 2 * dims + 1], buffer[2 * dims + 1 .. 3 * dims + 1],
           buffer[|buffer| - 2], buffer[|buffer| - 1])
  }

  /** Decoding an encoded job gives back its destination, lengths, sender and parent. */
  lemma HeaderRoundTrip(dims: nat, sender: int, parent: int, source: seq<int>, dest: seq<int>, ranges: seq<seq<Interval>>)
    requires EncodeHeader(dims, sender, parent, source, dest, ranges).Ok?
    ensures var h := DecodeHeader(dims, EncodeHeader(dims, sender, parent, source, dest, ranges).value);
      h == Header(dest[..dims], Lengths(ranges, dims), sender, parent)
  {
    var b := EncodeHeader(dims, sender, parent, source, dest, ranges).value;
    var h := DecodeHeader(dims, b);
    assert h.dest == dest[..dims] by {
      forall i | 0 <= i < dims ensures h.dest[i] == dest[i] {
        assert h.dest[i] == b[dims + 1 + i];
      }
    }
    assert h.lengths == Lengths(ranges, dims) by {
      forall i | 0 <= i < dims ensures h.lengths[i] == 2 * |ranges[i]| {
        assert h.lengths[i] == b[2 * dims + 1 + i];
      }
    }
  }

  /** The receiver allocates `sum(lengths)` doubles: exactly the size of the data message. */
  lemma {:induction false} PayloadSize(ranges: seq<seq<Interval>>, n: nat)
    requires n <= |ranges|
    decreases n
    ensures Sum(Lengths(ranges, n)) == |Payload(ranges, n)|
  {
    if n > 0 {
      PayloadSize(ranges, n - 1);
      assert Lengths(ranges, n)[..n - 1] == Lengths(ranges, n - 1);
    }
  }

  /** `x` lies strictly inside one of the ranges. */
  predicate InsideSome(x: real, rs: seq<Interval>)
  {
    exists k | 0 <= k < |rs| :: rs[k].0 < x < rs[k].1
  }

  lemma {:induction false} EndpointsPairs(x: real, rs: seq<Interval>, pre: seq<real>, post: seq<real>)
    decreases |rs|
    ensures InSomePair(x, pre + Endpoints(rs) + post, |pre|, 2 * |rs|) <==> InsideSome(x, rs)
  {
    var data := pre + Endpoints(rs) + post;
    if |rs| > 0 {
      var pre' := pre + [rs[0].0, rs[0].1];
      assert data == pre' + Endpoints(rs[1..]) + post;
      EndpointsPairs(x, rs[1..], pre', post);
      assert data[|pre|] == rs[0].0 && data[|pre| + 1] == rs[0].1;
      if InsideSome(x, rs[1..]) {
        var k :| 0 <= k < |rs[1..]| && rs[1..][k].0 < x < rs[1..][k].1;
        assert rs[k + 1] == rs[1..][k];
      }
      if InsideSome(x, rs) {
        var k :| 0 <= k < |rs| && rs[k].0 < x < rs[k].1;
        if k > 0 {
          assert rs[1..][k - 1] == rs[k];
        }
      }
    }
  }

  /** Where dimension `j` starts in the data message of `n` dimensions. */
  lemma PayloadOffset(ranges: seq<seq<Interval>>, n: nat, j: nat)
    requires j < n <= |ranges|
    ensures Offset(Lengths(ranges, n), j) == |Payload(ranges, j)|
  {
    assert Lengths(ranges, n)[..j] == Lengths(ranges, j);
    PayloadSize(ranges, j);
  }

  /** The data message of `n` dimensions carries dimension `j` right after the earlier ones. */
  lemma {:induction false} PayloadPrefix(ranges: seq<seq<Interval>>, n: nat, j: nat)
    requires j < n <= |ranges|
    decreases n
    ensures exists post :: Payload(ranges, n) == Payload(ranges, j) + Endpoints(ranges[j]) + post
  {
    if j == n - 1 {
      assert Payload(ranges, n) == Payload(ranges, j) + Endpoints(ranges[j]) + [];
    } else {
      PayloadPrefix(ranges, n - 1, j);
      var post :| Payload(ranges, n - 1) == Payload(ranges, j) + Endpoints(ranges[j]) + post;
      assert Payload(ranges, n) == Payload(ranges, j) + Endpoints(ranges[j]) + (post + Endpoints(ranges[n - 1]));
    }
  }

  /**
   * The wire round trip: the colour set `createFromBuffer` builds from a job's lengths and
   * data holds, in dimension `j`, the universe points strictly inside one of the sent
   * ranges of `j` (endpoints are lost: the receiver rebuilds open intervals).
   */
  lemma WireRoundTrip(u: set<real>, ranges: seq<seq<Interval>>, n: nat, j: nat)
    requires j < n <= |ranges|
    ensures WellFormedLengths(Lengths(ranges, n)) && Sum(Lengths(ranges, n)) == |Payload(ranges, n)|
    ensures BufferDimension(u, Lengths(ranges, n), Payload(ranges, n), j) == set x | x in u && InsideSome(x, ranges[j])
  {
    var lengths, data := Lengths(ranges, n), Payload(ranges, n);
    PayloadSize(ranges, n);
    PayloadOffset(ranges, n, j);
    PayloadPrefix(ranges, n, j);
    var post :| data == Payload(ranges, j) + Endpoints(ranges[j]) + post;
    forall x ensures InSomePair(x, data, Offset(lengths, j), lengths[j]) <==> InsideSome(x, ranges[j]) {
      EndpointsPairs(x, ranges[j], Payload(ranges, j), post);
    }
  }

  /** `sum`: the lengths added up with Java's wrapping `int` addition. */
  method SumInts(a: seq<int>) returns (s: int)
    ensures s == Wrap(Sum(a))
    ensures (forall i | 0 <= i <= |a| :: IsInt32(Sum(a[..i]))) ==> s == Sum(a)
  {
    s := 0;
    for i := 0 to |a|
      invariant s == Wrap(Sum(a[..i]))
    {
      SumSnoc(a, i);
      WrapAdd(Sum(a[..i]), a[i]);
      s := Wrap(s + a[i]);
    }
    assert a[..|a|] == a;
  }

  /** Wrapping after every addition is wrapping once at the end. */
  lemma WrapAdd(x: int, y: int)
    ensures Wrap(Wrap(x) + y) == Wrap(x + y)
  {
    var k := (Wrap(x) - x) / TWO_32;
    assert Wrap(x) == x + k * TWO_32;
    ShiftMod(x + y - MIN_INT, k);
  }

  lemma ShiftMod(a: int, k: int)
    ensures (a + k * TWO_32) % TWO_32 == a % TWO_32
  {
  }

  // ---------------------------------------------------------------- bookkeeping

  /** A job this rank runs: its id, the parent task it was sent for, and the rank that sent it. */
  datatype Task = Task(id: int, parent: int, source: int)

  /**
   * `started` stands for the listener thread; `completed` lists the tasks whose
   * completion was announced to their source, in order.
   */
  datatype Listener = Listener(
    dims: nat,
    started: bool,
    running: int,
    pending: map<int, int>,
    waiting: map<int, Task>,
    completed: seq<Task>)

  /** The constructor: the header width is the model's variable count. */
  function NewListener(variableCount: nat): (r: Listener)
    ensures r.dims == variableCount && !r.started && r.running == 0 && r.pending == map[] && r.completed == []
  {
    Listener(variableCount, false, 0, map[], map[], [])
  }

  /** Every stored pending count is at least one. */
  predicate CountsPositive(l: Listener)
  {
    forall p | p in l.pending :: l.pending[p] >= 1
  }

  /** `execute`: starting twice throws. */
  function Execute(l: Listener): (r: Result<Listener>)
    ensures r.Ok? <==> !l.started
    ensures r.Err? ==> r.error == IllegalState
    ensures r.Ok? ==> r.value == l.(started := true)
  {
    if l.started then Err(IllegalState) else Ok(l.(started := true))
  }

  lemma ExecuteTwiceFails(l: Listener)
    requires Execute(l).Ok?
    ensures Execute(Execute(l).value) == Err(IllegalState)
  {
  }

  /** The count `dispatchNewTask` keeps: one more outstanding job for `parent`. */
  function AddPending(l: Listener, parent: int): (r: Listener)
    ensures r.pending.Keys == l.pending.Keys + {parent}
    ensures r.pending[parent] == (if parent in l.pending then l.pending[parent] else 0) + 1
    ensures forall p | p in l.pending && p != parent :: r.pending[p] == l.pending[p]
    ensures CountsPositive(l) ==> CountsPositive(r)
    ensures r.running == l.running && r.waiting == l.waiting && r.completed == l.completed
  {
    var k := if parent in l.pending then l.pending[parent] else 0;
    l.(pending := l.pending[parent := k + 1])
  }

  /** The two messages of a job: the command buffer and the data. */
  datatype Outgoing = Outgoing(destination: int, header: seq<int>, data: seq<real>)

  /**
   * `dispatchNewTask`: encode, send, count. The header is built before anything is
   * counted, so a failed encoding changes nothing.
   */
  function DispatchNewTask(l: Listener, rank: int, parent: int, destination: int,
                           source: seq<int>, dest: seq<int>, ranges: seq<seq<Interval>>): (r: Result<(Listener, Outgoing)>)
    ensures r.Err? <==> EncodeHeader(l.dims, rank, parent, source, dest, ranges).Err?
    ensures r.Ok? ==> r.value.0 == AddPending(l, parent) && |r.value.1.header| == HeaderLength(l.dims)
    ensures r.Ok? ==> r.value.1.destination == destination && |r.value.1.data| == Sum(DecodeHeader(l.dims, r.value.1.header).lengths)
    ensures r.Ok? ==> DecodeHeader(l.dims, r.value.1.header) == Header(dest[..l.dims], Lengths(ranges, l.dims), rank, parent)
  {
    var header := EncodeHeader(l.dims, rank, parent, source, dest, ranges);
    if header.Err? then Err(header.error)
    else
      HeaderRoundTrip(l.dims, rank, parent, source, dest, ranges);
      PayloadSize(ranges, l.dims);
      Ok((AddPending(l, parent), Outgoing(destination, header.value, Payload(ranges, l.dims))))
  }

  /** `hasIncompleteRequests`. */
  predicate HasIncompleteRequests(l: Listener)
  {
    l.running > 0 || |l.pending| > 0
  }

  /** `onLocalTaskFinished`: park the task while it has outstanding jobs, else announce it. */
  function OnLocalTaskFinished(l: Listener, t: Task): (r: Listener)
    ensures r.running == l.running - 1 && r.pending == l.pending
    ensures t.id in l.pending ==> r.waiting == l.waiting[t.id := t] && r.completed == l.completed
    ensures t.id !in l.pending ==> r.waiting == l.waiting && r.completed == l.completed + [t]
  {
    if t.id in l.pending then l.(waiting := l.waiting[t.id := t], running := l.running - 1)
    else l.(completed := l.completed + [t], running := l.running - 1)
  }

  /**
   * `onRemoteTaskFinished`: one outstanding job of `parent` is done. The last one removes
   * the count and announces a parked parent; the parked entry itself is kept.
   */
  function OnRemoteTaskFinished(l: Listener, parent: int): (r: Result<Listener>)
    ensures r.Err? <==> parent !in l.pending
    ensures r.Err? ==> r.error == IllegalState
    ensures r.Ok? ==> r.value.running == l.running && r.value.waiting == l.waiting
    ensures r.Ok? && l.pending[parent] == 1 ==> r.value.pending == l.pending - {parent}
    ensures r.Ok? && l.pending[parent] == 1 ==>
      r.value.completed == l.completed + (if parent in l.waiting then [l.waiting[parent]] else [])
    ensures r.Ok? && l.pending[parent] != 1 ==>
      r.value.pending == l.pending[parent := l.pending[parent] - 1] && r.value.completed == l.completed
    ensures r.Ok? && CountsPositive(l) ==> CountsPositive(r.value)
  {
    if parent !in l.pending then Err(IllegalState)
    else if l.pending[parent] == 1 then
      var notified := if parent in l.waiting then [l.waiting[parent]] else [];
      Ok(l.(pending := l.pending - {parent}, completed := l.completed + notified))
    else
      Ok(l.(pending := l.pending[parent := l.pending[parent] - 1]))
  }

  /** A job sent and then reported finished leaves the counts as they were. */
  lemma DispatchThenFinishRestores(l: Listener, parent: int)
    requires CountsPositive(l)
    ensures var r := OnRemoteTaskFinished(AddPending(l, parent), parent);
      r.Ok? && r.value.pending == l.pending && r.value.running == l.running &&
      r.value.completed == l.completed + (if parent !in l.pending && parent in l.waiting then [l.waiting[parent]] else [])
  {
    var l1 := AddPending(l, parent);
    if parent in l.pending {
      assert l1.pending[parent := l1.pending[parent] - 1] == l.pending;
    } else {
      assert l1.pending - {parent} == l.pending;
    }
  }

  /** A task with no outstanding jobs is announced as soon as it finishes; otherwise when its last job is. */
  lemma ParkedTaskAnnouncedByLastJob(l: Listener, t: Task)
    requires CountsPositive(l) && t.id in l.pending && l.pending[t.id] == 1
    ensures var parked := OnLocalTaskFinished(l, t);
      OnRemoteTaskFinished(parked, t.id).Ok? &&
      OnRemoteTaskFinished(parked, t.id).value.completed == l.completed + [t]
  {
  }

  // ---------------------------------------------------------------- receive loop

  /** A job the loop starts: sender, parent task, destination node and the colours decoded from its data. */
  datatype Spawn = Spawn(sender: int, parent: int, dest: seq<int>, colors: ColorSet)

  /**
   * A received command buffer and, for a job, the content of the array of `sum(lengths)`
   * values its data message is received into.
   */
  datatype Incoming = Incoming(header: seq<int>, data: seq<real>)

  /** `finishSelf`: a zeroed buffer whose first word is the stop command. */
  function FinishBuffer(dims: nat): (r: seq<int>)
    ensures |r| == HeaderLength(dims) && r[0] == FINISH
  {
    [FINISH] + seq(3 * dims + 2, _ => 0)
  }

  /**
   * What the loop made of its inbox: the jobs it started, the destination nodes it looked
   * up (one per job command, also for a job whose colours then fail to decode), and the
   * exception that ended the thread, if one did.
   */
  datatype Received = Received(jobs: seq<Spawn>, dests: seq<seq<int>>, failure: Option<Error>)

  /**
   * Every command has the header width, and every job's length fields are non-negative and
   * even: `dispatchNewTask` writes two endpoints per range.
   */
  predicate WellFormedInbox(dims: nat, inbox: seq<Incoming>)
  {
    forall k | 0 <= k < |inbox| :: |inbox[k].header| == HeaderLength(dims) &&
      (inbox[k].header[0] == CREATE ==> WellFormedLengths(DecodeHeader(dims, inbox[k].header).lengths))
  }

  /** A suffix of a well-formed inbox is well formed. */
  lemma InboxSuffix(dims: nat, inbox: seq<Incoming>, k: nat)
    requires WellFormedInbox(dims, inbox) && k <= |inbox|
    ensures WellFormedInbox(dims, inbox[k..])
  {
    forall i | 0 <= i < |inbox[k..]| ensures inbox[k..][i] == inbox[k + i] {
    }
  }

  /**
   * One job's colours: an array of `sum(lengths)` values, which throws
   * `NegativeArraySizeException` when the wrapped sum is negative, then `createFromBuffer`.
   */
  function DecodeColors(u: set<real>, lengths: seq<int>, data: seq<real>): (r: Result<ColorSet>)
    requires WellFormedLengths(lengths)
    ensures r.Err? ==> r.error == NegativeArraySize || r.error == IndexOutOfBounds || r.error == IllegalArgument
    ensures r.Ok? ==> |r.value| == |lengths|
  {
    if Wrap(Sum(lengths)) < 0 then Err(NegativeArraySize) else FromBuffer(u, lengths, data)
  }

  /** `run` over an inbox: commands are read up to the first stop command or the first exception. */
  function ReadInbox(u: set<real>, dims: nat, inbox: seq<Incoming>): (r: Received)
    requires WellFormedInbox(dims, inbox)
    ensures |r.jobs| <= |r.dests|
    ensures forall k | 0 <= k < |r.jobs| :: |r.jobs[k].colors| == dims && |r.jobs[k].dest| == dims
  {
    if |inbox| == 0 then Received([], [], None)
    else
      var h := inbox[0].header;
      InboxSuffix(dims, inbox, 1);
      if h[0] == FINISH then Received([], [], None)
      else if h[0] != CREATE then ReadInbox(u, dims, inbox[1..])
      else
        var d := DecodeHeader(dims, h);
        var colors := DecodeColors(u, d.lengths, inbox[0].data);
        if colors.Err? then Received([], [d.dest], Some(colors.error))
        else
          var rest := ReadInbox(u, dims, inbox[1..]);
          Received([Spawn(d.sender, d.parent, d.dest, colors.value)] + rest.jobs, [d.dest] + rest.dests, rest.failure)
  }

  /** What a prefix of the inbox produced, followed by what the rest produces. */
  function Then(acc: Received, rest: Received): Received
  {
    Received(acc.jobs + rest.jobs, acc.dests + rest.dests, rest.failure)
  }

  /** `ReadInbox` read from position `k`: one command, then the rest. */
  lemma ReadInboxAt(u: set<real>, dims: nat, inbox: seq<Incoming>, k: nat)
    requires WellFormedInbox(dims, inbox) && k < |inbox|
    ensures WellFormedInbox(dims, inbox[k..]) && WellFormedInbox(dims, inbox[k + 1..])
    ensures var h := inbox[k].header;
      var here := ReadInbox(u, dims, inbox[k..]);
      if h[0] == FINISH then here == Received([], [], None)
      else if h[0] != CREATE then here == ReadInbox(u, dims, inbox[k + 1..])
      else
        var d := DecodeHeader(dims, h);
        var c := DecodeColors(u, d.lengths, inbox[k].data);
        if c.Err? then here == Received([], [d.dest], Some(c.error))
        else here == Then(Received([Spawn(d.sender, d.parent, d.dest, c.value)], [d.dest], None), ReadInbox(u, dims, inbox[k + 1..]))
  {
    InboxSuffix(dims, inbox, k);
    InboxSuffix(dims, inbox, k + 1);
    assert inbox[k..][0] == inbox[k] && inbox[k..][1..] == inbox[k + 1..];
  }

  /** Lines 56-61 of `run`: the data array is allocated with the wrapped sum of the lengths, filled and decoded. */
  method ReceiveColors(u: set<real>, lengths: seq<int>, data: seq<real>) returns (r: Result<ColorSet>)
    requires WellFormedLengths(lengths)
    ensures r == DecodeColors(u, lengths, data)
  {
    var size := SumInts(lengths);
    if size < 0 {
      return Err(NegativeArraySize);
    }
    r := FromBuffer(u, lengths, data);
  }

  /** The destination lookups of `run`, in order: each one caches its node when it is new. */
  function LookUpAll(fac: Factory, dests: seq<seq<int>>): (r: Factory)
    requires ValidFactory(fac)
    decreases |dests|
    ensures ValidFactory(r) && r.graphId == fac.graphId
    ensures forall c :: c in r.cache <==> c in fac.cache || c in dests
  {
    if |dests| == 0 then fac else LookUpAll(GetNode(fac, dests[0]).0, dests[1..])
  }

  /**
   * One pass of `run`'s loop on the command at `k`: a job's destination is recorded and
   * its colours decoded; `stop` is set by the stop command or an exception.
   */
  method Handle(u: set<real>, dims: nat, inbox: seq<Incoming>, k: nat, got: Received) returns (got': Received, stop: bool)
    requires WellFormedInbox(dims, inbox) && k < |inbox| && got.failure == None
    ensures WellFormedInbox(dims, inbox[k..]) && WellFormedInbox(dims, inbox[k + 1..])
    ensures stop ==> Then(got, ReadInbox(u, dims, inbox[k..])) == got'
    ensures !stop ==> got'.failure == None
    ensures !stop ==> Then(got, ReadInbox(u, dims, inbox[k..])) == Then(got', ReadInbox(u, dims, inbox[k + 1..]))
    ensures |got.jobs| <= |got'.jobs| <= |got.jobs| + 1
  {
    ReadInboxAt(u, dims, inbox, k);
    var h := inbox[k].header;
    got', stop := got, false;
    if h[0] == FINISH {
      assert got.jobs + [] == got.jobs && got.dests + [] == got.dests;
      stop := true;
    } else if h[0] == CREATE {
      var d := DecodeHeader(dims, h);
      var colors := ReceiveColors(u, d.lengths, inbox[k].data);
      if colors.Err? {
        assert got.jobs + [] == got.jobs;
        got', stop := Then(got, Received([], [d.dest], Some(colors.error))), true;
      } else {
        got' := Then(got, Received([Spawn(d.sender, d.parent, d.dest, colors.value)], [d.dest], None));
      }
    }
  }

  /**
   * `run`: receive until the stop command. A job looks up its destination node, decodes
   * its colours and is started and counted as running; an exception ends the thread. An
   * inbox without a stop command is consumed entirely (the source would block waiting).
   */
  method Run(l: Listener, fac: Factory, u: set<real>, inbox: seq<Incoming>) returns (r: Listener, fac': Factory, got: Received)
    requires ValidFactory(fac) && WellFormedInbox(l.dims, inbox)
    ensures got == ReadInbox(u, l.dims, inbox)
    ensures ValidFactory(fac') && forall c :: c in fac'.cache <==> c in fac.cache || c in got.dests
    ensures r == l.(running := l.running + |got.jobs|)
  {
    got := Received([], [], None);
    r := l;
    InboxSuffix(l.dims, inbox, 0);
    assert inbox[0..] == inbox;
    for k := 0 to |inbox|
      invariant WellFormedInbox(l.dims, inbox[k..])
      invariant got.failure == None && ReadInbox(u, l.dims, inbox) == Then(got, ReadInbox(u, l.dims, inbox[k..]))
      invariant r == l.(running := l.running + |got.jobs|)
    {
      var before := |got.jobs|;
      var stop;
      got, stop := Handle(u, l.dims, inbox, k, got);
      if |got.jobs| > before {
        r := r.(running := r.running + 1);
      }
      if stop {
        fac' := LookUpAll(fac, got.dests);
        return;
      }
    }
    assert inbox[|inbox|..] == [];
    assert got.jobs + [] == got.jobs && got.dests + [] == got.dests;
    fac' := LookUpAll(fac, got.dests);
  }

  /** Every range of the first `dims` dimensions is a valid open interval. */
  predicate IncreasingRanges(ranges: seq<seq<Interval>>, dims: nat)
    requires dims <= |ranges|
  {
    forall j, k | 0 <= j < dims && 0 <= k < |ranges[j]| :: ranges[j][k].0 < ranges[j][k].1
  }

  /** The colours a receiver rebuilds: in each dimension, the values strictly inside a sent range. */
  function Interior(u: set<real>, ranges: seq<seq<Interval>>, dims: nat): (r: ColorSet)
    requires dims <= |ranges|
    ensures |r| == dims
  {
    seq(dims, j requires 0 <= j < dims => set x | x in u && InsideSome(x, ranges[j]))
  }

  lemma {:induction false} EndpointsIncreasing(rs: seq<Interval>, pre: seq<real>, post: seq<real>)
    decreases |rs|
    ensures IncreasingPairs(pre + Endpoints(rs) + post, |pre|, 2 * |rs|) <==>
      forall k | 0 <= k < |rs| :: rs[k].0 < rs[k].1
  {
    var data := pre + Endpoints(rs) + post;
    if |rs| > 0 {
      var pre' := pre + [rs[0].0, rs[0].1];
      assert data == pre' + Endpoints(rs[1..]) + post;
      EndpointsIncreasing(rs[1..], pre', post);
      assert data[|pre|] == rs[0].0 && data[|pre| + 1] == rs[0].1;
      assert forall k | 1 <= k < |rs| :: rs[k] == rs[1..][k - 1];
    }
  }

  /**
   * The colour round trip: the data a sender writes for its ranges decodes to the values
   * strictly inside them, and fails with `IllegalArgumentException` when a range is empty
   * or reversed. A data message holds at most `MAX_INT` values, the largest MPI count.
   */
  lemma DecodeSentColors(u: set<real>, ranges: seq<seq<Interval>>, dims: nat)
    requires dims <= |ranges| && Sum(Lengths(ranges, dims)) <= MAX_INT
    ensures WellFormedLengths(Lengths(ranges, dims))
    ensures DecodeColors(u, Lengths(ranges, dims), Payload(ranges, dims)) ==
      if IncreasingRanges(ranges, dims) then Ok(Interior(u, ranges, dims)) else Err(IllegalArgument)
  {
    var lengths, data := Lengths(ranges, dims), Payload(ranges, dims);
    assert NonNegative(lengths);
    SumNonNegative(lengths);
    assert Wrap(Sum(lengths)) == Sum(lengths);
    PayloadSize(ranges, dims);
    FromBufferAgrees(u, lengths, data);
    forall j | 0 <= j < dims
      ensures IncreasingPairs(data, Offset(lengths, j), lengths[j]) <==>
        forall k | 0 <= k < |ranges[j]| :: ranges[j][k].0 < ranges[j][k].1
    {
      PayloadOffset(ranges, dims, j);
      PayloadPrefix(ranges, dims, j);
      var post :| data == Payload(ranges, j) + Endpoints(ranges[j]) + post;
      EndpointsIncreasing(ranges[j], Payload(ranges, j), post);
    }
    var r := FromBuffer(u, lengths, data);
    if IncreasingRanges(ranges, dims) {
      assert BufferIncreasing(lengths, data);
      forall j | 0 <= j < dims ensures r.value[j] == Interior(u, ranges, dims)[j] {
        WireRoundTrip(u, ranges, dims, j);
      }
      assert r.value == Interior(u, ranges, dims);
    } else {
      var j, k :| 0 <= j < dims && 0 <= k < |ranges[j]| && !(ranges[j][k].0 < ranges[j][k].1);
      assert !IncreasingPairs(data, Offset(lengths, j), lengths[j]);
    }
  }

  /**
   * The partner of `dispatchNewTask`: a job it sends, followed by the stop command, is
   * received as one lookup of its destination and, when its ranges are valid, one started
   * job with the interior of its colours; otherwise the thread dies with
   * `IllegalArgumentException` after the lookup.
   */
  lemma DispatchedJobReceived(u: set<real>, dims: nat, rank: int, parent: int, source: seq<int>, dest: seq<int>,
                              ranges: seq<seq<Interval>>)
    requires EncodeHeader(dims, rank, parent, source, dest, ranges).Ok? && Sum(Lengths(ranges, dims)) <= MAX_INT
    ensures var inbox := [Incoming(EncodeHeader(dims, rank, parent, source, dest, ranges).value, Payload(ranges, dims)),
                          Incoming(FinishBuffer(dims), [])];
      WellFormedInbox(dims, inbox) &&
      ReadInbox(u, dims, inbox) ==
        if IncreasingRanges(ranges, dims) then Received([Spawn(rank, parent, dest[..dims], Interior(u, ranges, dims))], [dest[..dims]], None)
        else Received([], [dest[..dims]], Some(IllegalArgument))
  {
    var h := EncodeHeader(dims, rank, parent, source, dest, ranges).value;
    var inbox := [Incoming(h, Payload(ranges, dims)), Incoming(FinishBuffer(dims), [])];
    HeaderRoundTrip(dims, rank, parent, source, dest, ranges);
    DecodeSentColors(u, ranges, dims);
    assert WellFormedInbox(dims, inbox);
    assert inbox[1..] == [Incoming(FinishBuffer(dims), [])];
    InboxSuffix(dims, inbox, 1);
    assert ReadInbox(u, dims, inbox[1..]) == Received([], [], None);
  }

  /** A closed parameter range `[0, 1]` sent as its single range arrives without its endpoints. */
  lemma EndpointsLost()
    ensures DecodeColors({0.0, 0.5, 1.0}, Lengths([[(0.0, 1.0)]], 1), Payload([[(0.0, 1.0)]], 1)) == Ok([{0.5}])
  {
    var u, ranges := {0.0, 0.5, 1.0}, [[(0.0, 1.0)]];
    DecodeSentColors(u, ranges, 1);
    assert Sum(Lengths(ranges, 1)) == 2 by {
      assert Lengths(ranges, 1) == [2];
    }
    assert IncreasingRanges(ranges, 1);
    assert InsideSome(0.5, ranges[0]);
    assert (set x | x in u && InsideSome(x, ranges[0])) == {0.5};
    assert Interior(u, ranges, 1) == [{0.5}];
  }
}
