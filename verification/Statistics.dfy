/**
 Statistics of the `ndptool` worker threads (`stats.c`): each thread counts for itself,
 posts what it has counted now and then, and a collector moves what was posted into the
 totals while the threads go on. A thread's post takes three steps, so that the collector
 can come in between.
 */
module Statistics {

  /** Where a thread is in its update: counting, due to post, between posting and settling, or finished. */
  datatype Phase = Counting | Due | Posted | Finished

  /**
   A thread's `struct stats_info`; `log` has the length of every packet it processed. A thread
   that is not `shared` counts in a copy of its own and posts there, to where the collector
   does not look: `threadPackets` and `threadBytes` are those of the record the collector reads.
   */
  datatype Worker = Worker(
    shared: bool,
    packets: nat,
    bytes: nat,
    lastPackets: nat,
    lastBytes: nat,
    lastUpdate: nat,
    threadPackets: nat,
    threadBytes: nat,
    privatePackets: nat,
    privateBytes: nat,
    phase: Phase,
    log: seq<nat>)

  const UPDATE_LIMIT: nat := 100000

  function Idle(shared: bool): Worker {
    Worker(shared, 0, 0, 0, 0, 0, 0, 0, 0, 0, Counting, [])
  }

  function Sum(ns: seq<nat>): nat {
    if ns == [] then 0 else Sum(ns[..|ns| - 1]) + ns[|ns| - 1]
  }

  lemma SumNone()
    ensures Sum([]) == 0
  {
  }

  lemma SumMore(ns: seq<nat>, k: nat)
    requires k < |ns|
    ensures Sum(ns[..k + 1]) == Sum(ns[..k]) + ns[k]
  {
    assert ns[..k + 1][..k] == ns[..k];
  }

  lemma {:induction false} SumConcat(a: seq<nat>, b: seq<nat>)
    ensures Sum(a + b) == Sum(a) + Sum(b)
    decreases |b|
  {
    if b == [] {
      assert a + b == a;
    } else {
      assert (a + b)[..|a + b| - 1] == a + b[..|b| - 1];
      SumConcat(a, b[..|b| - 1]);
    }
  }

  // ---- A thread's steps --------------------------------------------------

  /** update_print_progress, and the test that follows. */
  function Count(w: Worker, lengths: seq<nat>): Worker {
    var lastUpdate := w.lastUpdate + |lengths|;
    w.(packets := w.packets + |lengths|, bytes := w.bytes + Sum(lengths), lastUpdate := lastUpdate,
       phase := if lastUpdate > UPDATE_LIMIT || |lengths| == 0 then Due else Counting,
       log := w.log + lengths)
  }

  function Post(w: Worker): Worker
    requires w.lastPackets <= w.packets && w.lastBytes <= w.bytes
  {
    var packets, bytes := w.packets - w.lastPackets, w.bytes - w.lastBytes;
    if w.shared then
      w.(threadPackets := w.threadPackets + packets, threadBytes := w.threadBytes + bytes, phase := Posted)
    else
      w.(privatePackets := w.privatePackets + packets, privateBytes := w.privateBytes + bytes, phase := Posted)
  }

  function Settle(w: Worker): Worker {
    w.(lastPackets := w.packets, lastBytes := w.bytes, lastUpdate := 0, phase := Counting)
  }

  /** What the thread has counted and not posted. */
  function Unposted(w: Worker): (nat, nat)
    requires w.lastPackets <= w.packets && w.lastBytes <= w.bytes
  {
    if w.phase == Posted then (0, 0) else (w.packets - w.lastPackets, w.bytes - w.lastBytes)
  }

  ghost predicate Sane(w: Worker) {
    && w.lastPackets <= w.packets == |w.log| && w.lastBytes <= w.bytes == Sum(w.log)
    && (w.phase == Finished ==> Unposted(w) == (0, 0))
    // Between updates, at most so many packets are not posted.
    && w.packets - w.lastPackets == w.lastUpdate && (w.phase == Counting ==> w.lastUpdate <= UPDATE_LIMIT)
    // All a thread posts goes to one of the two records.
    && (w.shared ==> w.privatePackets == w.privateBytes == 0)
    && (!w.shared ==>
          && w.threadPackets == w.threadBytes == 0
          && w.privatePackets == w.packets - Unposted(w).0 && w.privateBytes == w.bytes - Unposted(w).1)
  }

  datatype Move = Process(lengths: seq<nat>) | Next | Finish

  /**
   A thread's next move: packets between updates, the next step of an update, or the end,
   after an update with none.
   */
  function Moved(w: Worker, m: Move): Worker
    requires Sane(w)
  {
    match w.phase
    case Counting =>
      if m.Process? then Count(w, m.lengths)
      else if m.Finish? && w.lastUpdate == 0 && Unposted(w) == (0, 0) then w.(phase := Finished)
      else w
    case Due => Post(w)
    case Posted => Settle(w)
    case Finished => w
  }

  lemma CountSane(w: Worker, lengths: seq<nat>)
    requires Sane(w) && w.phase == Counting
    ensures Sane(Count(w, lengths)) && Share(Count(w, lengths)) == Share(w)
  {
    SumConcat(w.log, lengths);
    hide Sum;
  }

  lemma PostSane(w: Worker)
    requires Sane(w) && w.phase == Due
    ensures Sane(Post(w)) && Share(Post(w)) == Share(w)
  {
    hide Sum;
  }

  lemma SettleSane(w: Worker)
    requires Sane(w) && w.phase == Posted
    ensures Sane(Settle(w)) && Share(Settle(w)) == Share(w)
  {
    hide Sum;
  }

  lemma MovedSane(w: Worker, m: Move)
    requires Sane(w)
    ensures Sane(Moved(w, m)) && w.log <= Moved(w, m).log && Moved(w, m).shared == w.shared
    ensures Share(Moved(w, m)) == Share(w)
    ensures w.threadPackets <= Moved(w, m).threadPackets && w.threadBytes <= Moved(w, m).threadBytes
  {
    hide Sum;
    match w.phase
    case Counting =>
      if m.Process? {
        CountSane(w, m.lengths);
        hide Sane, Share;
      }
    case Due =>
      PostSane(w);
      hide Sane, Share;
    case Posted =>
      SettleSane(w);
      hide Sane, Share;
    case Finished =>
  }

  /** update_stats_thread, when the collector does not come in between. */
  method UpdateStatsThread(w: Worker, lengths: seq<nat>) returns (r: Worker)
    requires Sane(w) && w.phase == Counting
    ensures r == var c := Count(w, lengths); if c.phase == Due then Settle(Post(c)) else c
    ensures r.phase == Counting && Sane(r) && r.log == w.log + lengths
    ensures r.packets - r.lastPackets <= UPDATE_LIMIT
    ensures r.packets == w.packets + |lengths| && r.bytes == w.bytes + Sum(lengths)
    // It posts all that is due, or nothing.
    ensures var due := w.lastUpdate + |lengths| > UPDATE_LIMIT || lengths == [];
            && (w.shared && due ==>
                  && r.threadPackets == w.threadPackets + (r.packets - w.lastPackets)
                  && r.threadBytes == w.threadBytes + (r.bytes - w.lastBytes)
                  && r.lastPackets == r.packets && r.lastBytes == r.bytes)
            && (!w.shared || !due ==> r.threadPackets == w.threadPackets && r.threadBytes == w.threadBytes)
            && (!due ==> r.lastPackets == w.lastPackets && r.lastBytes == w.lastBytes)
  {
    hide Sum, Share;
    SumNone();
    r := w.(packets := w.packets + |lengths|, log := w.log + lengths);
    for i := 0 to |lengths|
      invariant r == w.(packets := w.packets + |lengths|, log := w.log + lengths, bytes := w.bytes + Sum(lengths[..i]))
    {
      SumMore(lengths, i);
      r := r.(bytes := r.bytes + lengths[i]);
    }
    assert lengths[..|lengths|] == lengths;
    MovedSane(w, Process(lengths));
    r := r.(lastUpdate := r.lastUpdate + |lengths|);
    if r.lastUpdate > UPDATE_LIMIT || |lengths| == 0 {
      assert r.(phase := Due) == Count(w, lengths);
      MovedSane(r.(phase := Due), Next);
      MovedSane(Post(r.(phase := Due)), Next);
      r := Settle(Post(r.(phase := Due)));
    }
  }

  /** What has been taken from a thread: all it counted but what is posted or not posted yet. */
  ghost function Share(w: Worker): (int, int)
    requires Sane(w)
  {
    (w.packets - w.threadPackets - w.privatePackets - Unposted(w).0,
     w.bytes - w.threadBytes - w.privateBytes - Unposted(w).1)
  }

  // ---- All threads -------------------------------------------------------

  /** What has been taken from the first `k` threads. */
  ghost function Taken(ws: seq<Worker>, k: nat): (int, int)
    requires k <= |ws| && forall i | 0 <= i < |ws| :: Sane(ws[i])
  {
    if k == 0 then (0, 0)
    else (Taken(ws, k - 1).0 + Share(ws[k - 1]).0, Taken(ws, k - 1).1 + Share(ws[k - 1]).1)
  }

  ghost predicate AllSane(ws: seq<Worker>) {
    forall i | 0 <= i < |ws| :: Sane(ws[i])
  }

  lemma {:induction false} TakenUpdate(ws: seq<Worker>, i: nat, w: Worker, k: nat)
    requires AllSane(ws) && i < |ws| && Sane(w) && k <= |ws|
    ensures AllSane(ws[i := w])
    ensures Taken(ws[i := w], k).0 == Taken(ws, k).0 + if i < k then Share(w).0 - Share(ws[i]).0 else 0
    ensures Taken(ws[i := w], k).1 == Taken(ws, k).1 + if i < k then Share(w).1 - Share(ws[i]).1 else 0
    decreases k
  {
    hide Sane, Share;
    if k > 0 {
      TakenUpdate(ws, i, w, k - 1);
    }
  }

  /** The lengths of all packets the first `k` threads processed. */
  function Processed(ws: seq<Worker>, k: nat): seq<nat>
    requires k <= |ws|
  {
    if k == 0 then [] else Processed(ws, k - 1) + ws[k - 1].log
  }

  /** Of these, the lengths of those that the threads counted where the collector looks. */
  function Counted(ws: seq<Worker>, k: nat): seq<nat>
    requires k <= |ws|
  {
    if k == 0 then [] else Counted(ws, k - 1) + if ws[k - 1].shared then ws[k - 1].log else []
  }

  /** The totals tell of all packets exactly when no thread has counted any for itself. */
  lemma {:induction false} CountedAll(ws: seq<Worker>, k: nat)
    requires k <= |ws|
    ensures |Counted(ws, k)| <= |Processed(ws, k)| && Sum(Counted(ws, k)) <= Sum(Processed(ws, k))
    ensures |Counted(ws, k)| == |Processed(ws, k)| <==> forall i | 0 <= i < k :: ws[i].shared || ws[i].log == []
    ensures Sum(Counted(ws, k)) == Sum(Processed(ws, k)) <==>
            forall i | 0 <= i < k :: ws[i].shared || Sum(ws[i].log) == 0
    decreases k
  {
    if k > 0 {
      CountedAll(ws, k - 1);
      SumConcat(Processed(ws, k - 1), ws[k - 1].log);
      SumConcat(Counted(ws, k - 1), if ws[k - 1].shared then ws[k - 1].log else []);
      hide Sum;
    }
  }

  /** When nothing is left with the threads, everything they counted where the collector looks was taken, once. */
  lemma {:induction false} TakenAll(ws: seq<Worker>, k: nat)
    requires AllSane(ws) && k <= |ws|
    requires forall i | 0 <= i < k :: ws[i].phase == Finished && ws[i].threadPackets == ws[i].threadBytes == 0
    ensures Taken(ws, k) == (|Counted(ws, k)|, Sum(Counted(ws, k)))
    decreases k
  {
    if k > 0 {
      TakenAll(ws, k - 1);
      SumConcat(Counted(ws, k - 1), if ws[k - 1].shared then ws[k - 1].log else []);
    }
  }

  /** A thread that moves on leaves what was taken as it is. */
  lemma MoveTakes(ws: seq<Worker>, i: nat, m: Move)
    requires AllSane(ws) && i < |ws|
    ensures AllSane(ws[i := Moved(ws[i], m)]) && Taken(ws[i := Moved(ws[i], m)], |ws|) == Taken(ws, |ws|)
    ensures ws[i].log <= Moved(ws[i], m).log && Moved(ws[i], m).shared == ws[i].shared
    ensures Sane(Moved(ws[i], m)) && Share(Moved(ws[i], m)) == Share(ws[i])
    ensures ws[i].threadPackets <= Moved(ws[i], m).threadPackets && ws[i].threadBytes <= Moved(ws[i], m).threadBytes
  {
    hide Sane, Share, Moved;
    MovedSane(ws[i], m);
    TakenUpdate(ws, i, Moved(ws[i], m), |ws|);
  }

  /**
   A thread comes to its end: it completes its update, posts the rest with an update without
   packets, and finishes.
   */
  function Joined(w: Worker): Worker
    requires Sane(w)
  {
    var w := Then(Then(w, Next), Next);
    Then(Then(Then(Then(w, Process([])), Next), Next), Finish)
  }

  function Then(w: Worker, m: Move): (w': Worker)
    requires Sane(w)
    ensures Sane(w')
  {
    MovedSane(w, m);
    Moved(w, m)
  }

  /** Two moves complete an update under way. */
  lemma Completes(w: Worker)
    requires Sane(w)
    ensures var w' := Then(Then(w, Next), Next);
            && (w'.phase == Counting || w'.phase == Finished) && w'.log == w.log && w'.shared == w.shared
            && (w.phase == Due ==> w'.phase == Counting && w'.lastUpdate == 0 && Unposted(w') == (0, 0))
  {
    hide Sane;
    MovedSane(w, Next);
  }

  lemma Finishes(w: Worker)
    requires Sane(w) && (w.phase == Counting || w.phase == Finished)
    ensures var w' := Then(Then(Then(Then(w, Process([])), Next), Next), Finish);
            w'.phase == Finished && w'.log == w.log && w'.shared == w.shared
  {
    if w.phase == Counting {
      MovedSane(w, Process([]));
      Completes(Then(w, Process([])));
    }
  }

  lemma JoinedShare(w: Worker)
    requires Sane(w)
    ensures Sane(Joined(w)) && Share(Joined(w)) == Share(w)
    ensures Joined(w).phase == Finished && Joined(w).log == w.log && Joined(w).shared == w.shared
  {
    Completes(w);
    Finishes(Then(Then(w, Next), Next));
    hide Sane, Moved, Share;
    MovedSane(w, Next);
    var w1 := Then(w, Next);
    MovedSane(w1, Next);
    var w2 := Then(w1, Next);
    MovedSane(w2, Process([]));
    var w3 := Then(w2, Process([]));
    MovedSane(w3, Next);
    var w4 := Then(w3, Next);
    MovedSane(w4, Next);
    MovedSane(Then(w4, Next), Finish);
  }

  lemma JoinedTakes(ws: seq<Worker>, i: nat)
    requires AllSane(ws) && i < |ws|
    ensures var w := Joined(ws[i]);
            && w.phase == Finished && w.log == ws[i].log && w.shared == ws[i].shared
            && AllSane(ws[i := w]) && Taken(ws[i := w], |ws|) == Taken(ws, |ws|)
  {
    hide Sane, Share, Joined;
    JoinedShare(ws[i]);
    TakenUpdate(ws, i, Joined(ws[i]), |ws|);
  }

  function Emptied(w: Worker): Worker {
    w.(threadPackets := 0, threadBytes := 0)
  }

  /** Taking what a thread has posted. */
  lemma EmptiedTakes(ws: seq<Worker>, i: nat)
    requires AllSane(ws) && i < |ws|
    ensures AllSane(ws[i := Emptied(ws[i])])
    ensures Taken(ws[i := Emptied(ws[i])], |ws|)
         == (Taken(ws, |ws|).0 + ws[i].threadPackets, Taken(ws, |ws|).1 + ws[i].threadBytes)
  {
    TakenUpdate(ws, i, Emptied(ws[i]), |ws|);
    hide Taken;
  }

  /** Threads that count in the same places and have processed the same. */
  ghost predicate SameLogs(ws: seq<Worker>, vs: seq<Worker>) {
    |ws| == |vs| && forall i | 0 <= i < |ws| :: vs[i].shared == ws[i].shared && vs[i].log == ws[i].log
  }

  lemma {:induction false} SameProcessed(ws: seq<Worker>, vs: seq<Worker>, k: nat)
    requires SameLogs(ws, vs) && k <= |ws|
    ensures Processed(ws, k) == Processed(vs, k) && Counted(ws, k) == Counted(vs, k)
    decreases k
  {
    if k > 0 {
      SameProcessed(ws, vs, k - 1);
    }
  }

  // ---- The collector -----------------------------------------------------

  /** All a thread has posted where the collector looks, taken or not. */
  ghost function PostedAll(w: Worker): (int, int)
    requires Sane(w)
  {
    (Share(w).0 + w.threadPackets, Share(w).1 + w.threadBytes)
  }

  /** A thread later on: it has processed and posted more, and more was taken from it. */
  ghost predicate Later(w: Worker, v: Worker) {
    && Sane(w) && Sane(v) && w.log <= v.log && v.shared == w.shared
    && Share(w).0 <= Share(v).0 && Share(w).1 <= Share(v).1
    && PostedAll(w).0 <= PostedAll(v).0 && PostedAll(w).1 <= PostedAll(v).1
    && (w.phase == Finished ==> v.phase == Finished && v.log == w.log)
  }

  ghost predicate AllLater(ws: seq<Worker>, vs: seq<Worker>) {
    |ws| == |vs| && forall i | 0 <= i < |ws| :: Later(ws[i], vs[i])
  }

  /** All that thread `w` had posted has been taken by the time it is `v`, unless it has finished by then. */
  ghost predicate Cleared(w: Worker, v: Worker)
    requires Sane(w) && Sane(v)
  {
    v.phase == Finished || (PostedAll(w).0 <= Share(v).0 && PostedAll(w).1 <= Share(v).1)
  }

  /** That is so for the first `k` threads. */
  ghost predicate AllCleared(ws: seq<Worker>, vs: seq<Worker>, k: nat)
    requires k <= |ws| == |vs| && AllSane(ws) && AllSane(vs)
  {
    forall i | 0 <= i < k :: Cleared(ws[i], vs[i])
  }

  lemma LaterTrans(ws: seq<Worker>, vs: seq<Worker>, us: seq<Worker>, k: nat)
    requires AllLater(ws, vs) && AllLater(vs, us) && k <= |ws|
    ensures AllSane(ws) && AllSane(vs) && AllSane(us) && AllLater(ws, us)
    ensures AllCleared(ws, vs, k) || AllCleared(vs, us, k) ==> AllCleared(ws, us, k)
  {
    hide Sane, Share;
    forall i | 0 <= i < |ws|
      ensures Later(ws[i], us[i])
    {
      assert Later(ws[i], vs[i]) && Later(vs[i], us[i]);
    }
  }

  lemma LaterSelf(ws: seq<Worker>)
    requires AllSane(ws)
    ensures AllLater(ws, ws) && AllCleared(ws, ws, 0)
  {
    hide Sane, Share;
  }

  lemma MovedLater(w: Worker, m: Move)
    requires Sane(w)
    ensures Later(w, Moved(w, m))
  {
    MovedSane(w, m);
    hide Sane, Share;
  }

  lemma EmptiedLater(w: Worker)
    requires Sane(w)
    ensures Later(w, Emptied(w)) && Cleared(w, Emptied(w))
  {
  }

  lemma UpdateLater(ws: seq<Worker>, i: nat, w: Worker)
    requires AllSane(ws) && i < |ws| && Later(ws[i], w)
    ensures AllLater(ws, ws[i := w])
  {
    hide Sane, Share;
    LaterSelf(ws);
    forall j | 0 <= j < |ws|
      ensures Later(ws[j], ws[i := w][j])
    {
    }
  }

  /** The threads after a series of moves. */
  function MovedAll(ws: seq<Worker>, moves: seq<(nat, Move)>, k: nat): (vs: seq<Worker>)
    requires AllSane(ws) && k <= |moves|
    ensures |vs| == |ws| && AllSane(vs)
  {
    if k == 0 then ws
    else
      var vs := MovedAll(ws, moves, k - 1);
      var (i, m) := moves[k - 1];
      if i >= |vs| then vs
      else
        MovedSane(vs[i], m);
        vs[i := Moved(vs[i], m)]
  }

  /** Each pass leaves later threads, from which all that was posted before it has been taken. */
  ghost predicate Passes(snaps: seq<seq<Worker>>, incremental: bool) {
    forall p | 0 <= p < |snaps| - 1 :: Passed(snaps[p], snaps[p + 1], incremental)
  }

  ghost predicate Passed(ws: seq<Worker>, vs: seq<Worker>, incremental: bool) {
    AllSane(ws) && AllSane(vs) && AllLater(ws, vs) && (!incremental ==> AllCleared(ws, vs, |ws|))
  }

  lemma OneSnap(ws: seq<Worker>, incremental: bool)
    ensures Passes([ws], incremental)
  {
  }

  lemma SnapMore(snaps: seq<seq<Worker>>, incremental: bool, ws: seq<Worker>)
    requires Passes(snaps, incremental) && snaps != [] && Passed(snaps[|snaps| - 1], ws, incremental)
    ensures Passes(snaps + [ws], incremental)
  {
    hide Passed;
    var snaps' := snaps + [ws];
    forall p | 0 <= p < |snaps'| - 1
      ensures Passed(snaps'[p], snaps'[p + 1], incremental)
    {
      if p < |snaps| - 1 {
        assert snaps'[p] == snaps[p] && snaps'[p + 1] == snaps[p + 1];
      }
    }
  }

  class Tool {
    const threads: array<Worker>
    const incremental: bool
    var packetCnt: nat
    var bytesCnt: nat

    /** The totals are what was taken from the threads. */
    ghost predicate Valid()
      reads this, threads
    {
      AllSane(threads[..]) && (packetCnt as int, bytesCnt as int) == Taken(threads[..], threads.Length)
    }

    /** One thread for each entry of `shared`, counting where the collector looks or not. */
    constructor (shared: seq<bool>, incremental: bool)
      ensures Valid() && threads.Length == |shared| && this.incremental == incremental && fresh(threads)
      ensures forall i | 0 <= i < |shared| :: threads[i] == Idle(shared[i])
    {
      threads := new Worker[|shared|](i requires 0 <= i < |shared| => Idle(shared[i]));
      this.incremental := incremental;
      packetCnt, bytesCnt := 0, 0;
      new;
      NothingYet(threads[..], shared, |shared|);
    }

    /** What the threads do between two of the collector's steps: `moves` of thread, move. */
    method Interlude(moves: seq<(nat, Move)>)
      requires Valid()
      modifies threads
      ensures Valid() && AllLater(old(threads[..]), threads[..])
      ensures threads[..] == MovedAll(old(threads[..]), moves, |moves|)
    {
      hide Sane, Moved, Taken, Later, Share;
      ghost var before := threads[..];
      LaterSelf(before);
      for j := 0 to |moves|
        invariant Valid() && AllLater(before, threads[..])
        invariant threads[..] == MovedAll(before, moves, j)
      {
        var (i, m) := moves[j];
        if i < threads.Length {
          MoveTakes(threads[..], i, m);
          ghost var was := threads[..];
          MovedLater(was[i], m);
          UpdateLater(was, i, Moved(was[i], m));
          threads[i] := Moved(threads[i], m);
          assert threads[..] == was[i := Moved(was[i], m)];
          LaterTrans(before, was, threads[..], 0);
        }
      }
    }

    /** Whether a visit finds a thread to take from. */
    predicate Takes(w: Worker) {
      !incremental && w.phase != Finished
    }

    /** The collector's visit of one thread, under its lock: it takes what is posted, or nothing. */
    method Collect(i: nat)
      requires Valid() && i < threads.Length
      modifies this, threads
      ensures Valid()
      ensures packetCnt == old(packetCnt) + if Takes(old(threads[i])) then old(threads[i]).threadPackets else 0
      ensures bytesCnt == old(bytesCnt) + if Takes(old(threads[i])) then old(threads[i]).threadBytes else 0
      ensures threads[..]
           == old(threads[..])[i := if Takes(old(threads[i])) then Emptied(old(threads[i])) else old(threads[i])]
    {
      hide Sane, Taken;
      if threads[i].phase != Finished {
        var threadPackets, threadBytes := threads[i].threadPackets, threads[i].threadBytes;
        if !incremental {
          EmptiedTakes(threads[..], i);
          ghost var was := threads[..];
          threads[i] := Emptied(threads[i]);
          assert threads[..] == was[i := Emptied(was[i])];
          packetCnt := packetCnt + threadPackets;
          bytesCnt := bytesCnt + threadBytes;
        }
      }
    }

    /** One pass over the threads, which go on before each visit as `turns` says. */
    method CollectPass(turns: seq<seq<(nat, Move)>>)
      requires Valid()
      modifies this, threads
      ensures Valid() && AllSane(old(threads[..])) && AllLater(old(threads[..]), threads[..])
      ensures incremental ==> packetCnt == old(packetCnt) && bytesCnt == old(bytesCnt)
      ensures !incremental ==> AllCleared(old(threads[..]), threads[..], threads.Length)
    {
      hide Sane, Taken, Later, Cleared, Share, Emptied;
      ghost var before := threads[..];
      LaterSelf(before);
      for i := 0 to threads.Length
        invariant Valid() && AllLater(before, threads[..])
        invariant incremental ==> packetCnt == old(packetCnt) && bytesCnt == old(bytesCnt)
        invariant !incremental ==> AllCleared(before, threads[..], i)
      {
        ghost var was := threads[..];
        Interlude(if i < |turns| then turns[i] else []);
        LaterTrans(before, was, threads[..], i);
        was := threads[..];
        Collect(i);
        Visited(before, was, threads[..], i, Takes(was[i]), incremental);
      }
    }

    /**
     The loop of update_stats_loop_thread with an interval: each pass takes, once, all that was
     posted when it began, as the snapshots of the threads between the passes tell.
     */
    method CollectLoop(passes: seq<seq<seq<(nat, Move)>>>) returns (ghost snaps: seq<seq<Worker>>)
      requires Valid()
      modifies this, threads
      ensures Valid() && AllSane(old(threads[..])) && AllLater(old(threads[..]), threads[..])
      ensures incremental ==> packetCnt == old(packetCnt) && bytesCnt == old(bytesCnt)
      ensures !incremental && passes != [] ==> AllCleared(old(threads[..]), threads[..], threads.Length)
      ensures |snaps| == |passes| + 1 && snaps[0] == old(threads[..]) && snaps[|passes|] == threads[..]
      ensures Passes(snaps, incremental)
    {
      hide Sane, Taken, Later, Cleared, Share, Passes;
      ghost var before := threads[..];
      LaterSelf(before);
      snaps := [before];
      OneSnap(before, incremental);
      for p := 0 to |passes|
        invariant Valid() && AllLater(before, threads[..])
        invariant incremental ==> packetCnt == old(packetCnt) && bytesCnt == old(bytesCnt)
        invariant !incremental && p > 0 ==> AllCleared(before, threads[..], threads.Length)
        invariant |snaps| == p + 1 && snaps[0] == before && snaps[p] == threads[..] && Passes(snaps, incremental)
      {
        ghost var was := threads[..];
        CollectPass(passes[p]);
        LaterTrans(before, was, threads[..], threads.Length);
        SnapMore(snaps, incremental, threads[..]);
        snaps := snaps + [threads[..]];
      }
    }

    /** What the threads do that are not yet joined, `ws` being the threads with what was gathered taken out. */
    method Goings(moves: seq<(nat, Move)>, joined: nat, ghost ws: seq<Worker>) returns (ghost ws': seq<Worker>)
      requires joined <= threads.Length && Gathering(ws, joined)
      modifies threads
      ensures Gathering(ws', joined) && Goes(old(threads[..]), threads[..])
    {
      hide Sane, Moved, Taken, Share;
      ws' := ws;
      for j := 0 to |moves|
        invariant Gathering(ws', joined) && Goes(old(threads[..]), threads[..])
      {
        var (i, m) := moves[j];
        if joined <= i < threads.Length {
          MoveTakes(ws', i, m);
          ws' := ws'[i := Moved(ws'[i], m)];
          threads[i] := Moved(threads[i], m);
        }
      }
    }

    /** The totals are what was taken from `ws`: the first `k` threads emptied, the others as they are. */
    ghost predicate Gathering(ws: seq<Worker>, k: nat)
      reads this, threads
    {
      && |ws| == threads.Length && AllSane(ws) && (packetCnt as int, bytesCnt as int) == Taken(ws, |ws|)
      && forall j | 0 <= j < |ws| ::
           if j < k then threads[j].phase == Finished && ws[j] == Emptied(threads[j]) else ws[j] == threads[j]
    }

    /**
     The end: join each thread and gather what it has posted, while those not yet joined go
     on as `turns` says. The totals are then exactly the number and the length of the packets
     that the threads counted where the collector looks; they tell of all packets processed
     exactly when no thread has counted any for itself.
     */
    method Gather(turns: seq<seq<(nat, Move)>>)
      requires Valid()
      modifies this, threads
      ensures packetCnt == |Counted(threads[..], threads.Length)|
      ensures bytesCnt == Sum(Counted(threads[..], threads.Length))
      ensures packetCnt == |Processed(threads[..], threads.Length)|
         <==> forall j | 0 <= j < threads.Length :: threads[j].shared || threads[j].log == []
      ensures bytesCnt == Sum(Processed(threads[..], threads.Length))
         <==> forall j | 0 <= j < threads.Length :: threads[j].shared || Sum(threads[j].log) == 0
      ensures Goes(old(threads[..]), threads[..])
      ensures forall j | 0 <= j < threads.Length :: threads[j].phase == Finished
    {
      hide Sane, Taken, Processed, Counted, Sum, Joined, Share, Goes;
      ghost var ws := threads[..];
      GoesOn(ws, ws, ws);
      for i := 0 to threads.Length
        invariant Gathering(ws, i) && Goes(old(threads[..]), threads[..])
      {
        ghost var was := threads[..];
        ws := Goings(if i < |turns| then turns[i] else [], i, ws);
        GoesOn(old(threads[..]), was, threads[..]);
        was := threads[..];
        ws := GatherOne(i, ws);
        GoesOn(old(threads[..]), was, threads[..]);
      }
      TakenAll(ws, |ws|);
      SameProcessed(threads[..], ws, |ws|);
      CountedAll(threads[..], |ws|);
    }

    /** One thread comes to its end, and what it has posted is gathered. */
    method GatherOne(i: nat, ghost ws: seq<Worker>) returns (ghost ws': seq<Worker>)
      requires i < threads.Length && Gathering(ws, i)
      modifies this, threads
      ensures Gathering(ws', i + 1) && Goes(old(threads[..]), threads[..])
    {
      hide Sane, Taken, Joined, Share;
      JoinedTakes(ws, i);
      ws' := ws[i := Joined(ws[i])];
      threads[i] := Joined(threads[i]);
      EmptiedTakes(ws', i);
      packetCnt := packetCnt + threads[i].threadPackets;
      bytesCnt := bytesCnt + threads[i].threadBytes;
      ws' := ws'[i := Emptied(ws'[i])];
      if !incremental {
        threads[i] := Emptied(threads[i]);
      }
    }
  }

  /** The threads go on: they process more, and count where they did. */
  ghost predicate Goes(ws: seq<Worker>, vs: seq<Worker>) {
    |ws| == |vs| && forall j | 0 <= j < |ws| :: ws[j].log <= vs[j].log && vs[j].shared == ws[j].shared
  }

  lemma GoesOn(ws: seq<Worker>, vs: seq<Worker>, us: seq<Worker>)
    ensures Goes(ws, ws) && (Goes(ws, vs) && Goes(vs, us) ==> Goes(ws, us))
  {
  }

  /** One more thread visited. */
  lemma Visited(before: seq<Worker>, was: seq<Worker>, now: seq<Worker>, i: nat, takes: bool, incremental: bool)
    requires AllLater(before, was) && i < |was| && takes == (!incremental && was[i].phase != Finished)
    requires now == was[i := if takes then Emptied(was[i]) else was[i]]
    requires AllSane(before) && AllSane(was) && (!incremental ==> AllCleared(before, was, i))
    ensures AllSane(now) && AllLater(before, now)
    ensures !incremental ==> AllCleared(before, now, i + 1)
  {
    hide Sane, Share;
    EmptiedLater(was[i]);
    LaterSelf(was);
    assert Later(was[i], was[i]);
    UpdateLater(was, i, now[i]);
    LaterTrans(before, was, now, i);
    assert Later(before[i], was[i]);
  }

  lemma IdleShare(w: Worker, shared: bool)
    requires w == Idle(shared)
    ensures Sane(w) && Share(w) == (0, 0)
  {
    SumNone();
    hide Sum;
  }

  lemma {:induction false} NothingYet(ws: seq<Worker>, shared: seq<bool>, k: nat)
    requires k <= |ws| == |shared| && forall i | 0 <= i < |ws| :: ws[i] == Idle(shared[i])
    ensures AllSane(ws) && Taken(ws, k) == (0, 0)
    decreases k
  {
    hide Sane, Share;
    forall i | 0 <= i < |ws|
      ensures Sane(ws[i]) && Share(ws[i]) == (0, 0)
    {
      IdleShare(ws[i], shared[i]);
    }
    if k > 0 {
      NothingYet(ws, shared, k - 1);
    }
  }

  /**
   A thread that replays a capture file of its own copies its parameters, and with them its
   counters: whatever packets it sends before it ends, it leaves nothing to gather.
   */
  lemma OwnFileUncounted(w: Worker, lengths: seq<nat>)
    requires Sane(w) && !w.shared && w.phase == Counting && w.log == []
    ensures var v := Joined(Then(w, Process(lengths)));
            && v.phase == Finished && v.log == lengths && v.threadPackets == v.threadBytes == 0
            && Processed([v], 1) == lengths && Counted([v], 1) == []
  {
    FirstPackets(w, lengths);
    hide Sane, Moved, Joined;
    var v := Joined(Then(w, Process(lengths)));
    JoinedShare(Then(w, Process(lengths)));
    PrivateEmpty(v);
    AloneCounted(v);
  }

  lemma FirstPackets(w: Worker, lengths: seq<nat>)
    requires Sane(w) && w.phase == Counting && w.log == []
    ensures Then(w, Process(lengths)).log == lengths && Then(w, Process(lengths)).shared == w.shared
  {
    hide Sum, Sane;
    assert [] + lengths == lengths;
  }

  lemma PrivateEmpty(w: Worker)
    requires Sane(w) && !w.shared
    ensures w.threadPackets == w.threadBytes == 0
  {
    hide Sum;
  }

  lemma AloneCounted(w: Worker)
    ensures Processed([w], 1) == w.log && Counted([w], 1) == if w.shared then w.log else []
  {
    assert Processed([w], 0) == [] && Counted([w], 0) == [];
    assert [w][0] == w;
    assert [] + w.log == w.log;
  }

  lemma IdleFields(w: Worker, shared: bool)
    requires w == Idle(shared)
    ensures w.shared == shared && w.phase == Counting && w.log == []
  {
  }

  lemma OneMove(ws: seq<Worker>, moves: seq<(nat, Move)>, lengths: seq<nat>)
    requires AllSane(ws) && |ws| == 1 && moves == [(0, Process(lengths))]
    requires !ws[0].shared && ws[0].phase == Counting && ws[0].log == []
    ensures MovedAll(ws, moves, 1)[0].log == lengths && !MovedAll(ws, moves, 1)[0].shared
  {
    FirstPackets(ws[0], lengths);
    hide Sane, Moved;
    assert MovedAll(ws, moves, 0) == ws;
  }

  /** One such thread, and one packet of 64 bytes: the tool ends with totals of zero. */
  method ReplayOwnFile(incremental: bool) returns (tool: Tool)
    ensures tool.threads.Length == 1 && [64] <= tool.threads[0].log
    ensures tool.packetCnt == tool.bytesCnt == 0
  {
    hide Sane, Moved, MovedAll, Taken, Sum, Processed, Counted, Idle;
    tool := new Tool([false], incremental);
    var moves := [(0, Process([64]))];
    IdleFields(tool.threads[0], false);
    OneMove(tool.threads[..], moves, [64]);
    tool.Interlude(moves);
    tool.Gather([]);
    AloneCounted(tool.threads[0]);
    assert tool.threads[..] == [tool.threads[0]];
    SumNone();
  }
}
