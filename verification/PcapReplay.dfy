/**
 The transmit mode of `ndptool` (`transmit.c`): a capture file is read into a cache and
 replayed from it a number of times, in bursts.
 */
module PcapReplay {
  import opened Bytes
  import Ring

  /** What comes after the whole records: nothing, part of a record's header or of its data, or a read error. */
  datatype Tail = Nothing | CutHeader | CutData | ReadError

  datatype Capture = Capture(records: seq<seq<byte>>, tail: Tail)

  const DEFAULT_CACHE_CAPACITY: nat := 1024

  /** All packets, `k` times over. */
  function Repeat(ps: seq<seq<byte>>, k: nat): seq<seq<byte>> {
    if k == 0 then [] else Repeat(ps, k - 1) + ps
  }

  lemma {:induction false} RepeatPrefix(ps: seq<seq<byte>>, i: nat, j: nat)
    requires i <= j
    ensures Repeat(ps, i) <= Repeat(ps, j)
    decreases j
  {
    if i < j {
      RepeatPrefix(ps, i, j - 1);
    }
  }

  lemma {:induction false} RepeatSize(ps: seq<seq<byte>>, k: nat)
    ensures |Repeat(ps, k)| == k * |ps|
    decreases k
  {
    if k > 0 {
      RepeatSize(ps, k - 1);
      assert k * |ps| == (k - 1) * |ps| + |ps|;
    }
  }

  /** A file with packets sent another number of times is something else. */
  lemma RepeatSame(ps: seq<seq<byte>>, i: nat, j: nat)
    ensures Repeat(ps, i) == Repeat(ps, j) <==> i == j || ps == []
  {
    RepeatSize(ps, i);
    RepeatSize(ps, j);
    EmptyRepeats(ps, i);
    EmptyRepeats(ps, j);
    if i != j && ps != [] {
      assert (i - j) * |ps| == i * |ps| - j * |ps|;
      assert (i - j) * |ps| != 0;
    }
  }

  /** How many packets are left to send, for a number of loops: less by each packet the queue takes. */
  ghost function Left(ps: seq<seq<byte>>, loops: nat, sent: seq<seq<byte>>): int {
    loops * |ps| - |sent|
  }

  function Length(ps: seq<seq<byte>>): nat {
    if ps == [] then 0 else Length(ps[..|ps| - 1]) + |ps[|ps| - 1]|
  }

  lemma {:induction false} LengthConcat(a: seq<seq<byte>>, b: seq<seq<byte>>)
    ensures Length(a + b) == Length(a) + Length(b)
    decreases |b|
  {
    if b == [] {
      assert a + b == a;
    } else {
      assert (a + b)[..|a + b| - 1] == a + b[..|b| - 1];
      LengthConcat(a, b[..|b| - 1]);
    }
  }

  /** `struct pcap_cache` */
  class Cache {
    var packets: array<seq<byte>>
    var sizes: array<nat>
    var capacity: nat
    var items: nat
    var offset: nat

    /** The cached packets. */
    ghost function Contents(): seq<seq<byte>>
      requires items <= packets.Length
      reads this, packets
    {
      packets[..items]
    }

    ghost predicate Valid()
      reads this, packets, sizes
    {
      && packets.Length == sizes.Length == capacity && items < capacity && offset <= items
      && forall i | 0 <= i < items :: sizes[i] == |packets[i]|
    }

    constructor ()
      ensures Valid() && Contents() == [] && offset == 0 && fresh(packets) && fresh(sizes)
    {
      capacity, items, offset := DEFAULT_CACHE_CAPACITY, 0, 0;
      packets := new seq<byte>[DEFAULT_CACHE_CAPACITY];
      sizes := new nat[DEFAULT_CACHE_CAPACITY];
    }

    /** Both arrays twice as large. */
    method Grow()
      requires packets.Length == sizes.Length == capacity && items <= capacity && offset <= items
      requires capacity > 0 && forall i | 0 <= i < items :: sizes[i] == |packets[i]|
      modifies this
      ensures Valid() && Contents() == old(Contents()) && offset == old(offset)
      ensures fresh(packets) && fresh(sizes)
    {
      capacity := capacity * 2;
      var p := new seq<byte>[capacity];
      var s := new nat[capacity];
      forall i | 0 <= i < items {
        p[i] := packets[i];
      }
      forall i | 0 <= i < items {
        s[i] := sizes[i];
      }
      packets, sizes := p, s;
    }

    /** One record read. */
    method Add(record: seq<byte>)
      requires Valid()
      modifies this, packets, sizes
      ensures Valid() && Contents() == old(Contents()) + [record] && offset == old(offset)
      ensures (packets == old(packets) && sizes == old(sizes)) || (fresh(packets) && fresh(sizes))
    {
      sizes[items] := |record|;
      packets[items] := record;
      items := items + 1;
      if items == capacity {
        Grow();
      }
    }

    /**
     pcap_cache_create: every record of the file in order, or failure exactly when the data of
     a record are cut, reading fails, or a record has no data, which reads as an error. A cut
     header is taken for the end of the file.
     */
    method Create(file: Capture) returns (ok: bool)
      requires Valid() && Contents() == [] && offset == 0
      modifies this, packets, sizes
      ensures Valid() && offset == 0
      ensures ok <==> (file.tail == Nothing || file.tail == CutHeader) && [] !in file.records
      ensures ok ==> Contents() == file.records
    {
      for i := 0 to |file.records|
        invariant Valid() && offset == 0 && Contents() == file.records[..i] && [] !in file.records[..i]
        invariant (packets == old(packets) && sizes == old(sizes)) || (fresh(packets) && fresh(sizes))
      {
        if file.records[i] == [] {
          return false;
        }
        Add(file.records[i]);
      }
      if file.tail == CutData {
        return false;
      }
      ok := file.tail != ReadError;
    }
  }

  /** What has been sent: whole runs through the file and a part of one. */
  ghost predicate Sent(sent: seq<seq<byte>>, ps: seq<seq<byte>>, loop: nat, offset: nat) {
    loop > 0 && offset <= |ps| && sent == Repeat(ps, loop - 1) + ps[..offset]
  }

  lemma SentMore(sent: seq<seq<byte>>, ps: seq<seq<byte>>, loop: nat, offset: nat, cnt: nat)
    requires Sent(sent, ps, loop, offset) && offset + cnt <= |ps|
    ensures Sent(sent + ps[offset..offset + cnt], ps, loop, offset + cnt)
  {
    assert ps[..offset] + ps[offset..offset + cnt] == ps[..offset + cnt];
    assert sent + ps[offset..offset + cnt] == Repeat(ps, loop - 1) + (ps[..offset] + ps[offset..offset + cnt]);
  }

  /** At the end of the file, going back to its start is the same place. */
  lemma SentAgain(sent: seq<seq<byte>>, ps: seq<seq<byte>>, loop: nat)
    requires Sent(sent, ps, loop, |ps|)
    ensures Sent(sent, ps, loop + 1, 0) && sent == Repeat(ps, loop)
  {
    assert ps[..|ps|] == ps && ps[..0] == [];
  }

  lemma SentPrefix(sent: seq<seq<byte>>, ps: seq<seq<byte>>, loop: nat, offset: nat, loops: nat)
    requires Sent(sent, ps, loop, offset) && loop <= loops
    ensures sent <= Repeat(ps, loops)
  {
    RepeatPrefix(ps, loop, loops);
    assert Repeat(ps, loop) == sent + ps[offset..];
  }

  // ---- What comes next ---------------------------------------------------

  /** All is sent that is to be sent. */
  ghost predicate Complete(ps: seq<seq<byte>>, loops: nat, sent: seq<seq<byte>>) {
    ps == [] || (loops > 0 && sent == Repeat(ps, loops))
  }

  /** Of a file whose packets are sent over and over, those after `sent` up to its end, or `burst` of them. */
  function Upcoming(ps: seq<seq<byte>>, sent: nat, burst: nat): seq<seq<byte>>
    requires ps != []
  {
    var o := sent % |ps|;
    if burst < |ps| - o then ps[o..o + burst] else ps[o..]
  }

  lemma Remainder(q: nat, r: nat, x: nat, n: nat)
    requires r < n && x == q * n + r
    ensures x % n == r
  {
    assert x == x / n * n + x % n;
    Ring.DivisionUnique(q, r, x / n, x % n, n);
  }

  /** Where in the file the next packet is. */
  lemma Place(sent: seq<seq<byte>>, ps: seq<seq<byte>>, loop: nat, offset: nat)
    requires Sent(sent, ps, loop, offset) && ps != []
    ensures |sent| % |ps| == if offset == |ps| then 0 else offset
  {
    RepeatSize(ps, loop - 1);
    var n := |ps|;
    if offset < n {
      Remainder(loop - 1, offset, |sent|, n);
    } else {
      assert |sent| == (loop - 1) * n + n == loop * n;
      Remainder(loop, 0, |sent|, n);
    }
  }

  /** All is sent exactly at the end of the last loop. */
  lemma AtEnd(sent: seq<seq<byte>>, ps: seq<seq<byte>>, loop: nat, offset: nat, loops: nat)
    requires Sent(sent, ps, loop, offset) && ps != [] && loops > 0 && loop <= loops
    ensures sent == Repeat(ps, loops) <==> loop == loops && offset == |ps|
  {
    RepeatSize(ps, loop - 1);
    RepeatSize(ps, loops);
    assert Repeat(ps, loops) == Repeat(ps, loops - 1) + ps;
    LastPlace(loop, loops, |ps|, offset);
    hide Repeat;
    assert ps[..|ps|] == ps;
  }

  lemma LastPlace(loop: nat, loops: nat, n: nat, offset: nat)
    requires 0 < loop <= loops && offset <= n && n > 0
    ensures (loop - 1) * n + offset == loops * n <==> loop == loops && offset == n
  {
    var d := loops - loop;
    assert loops * n - (loop - 1) * n == (d + 1) * n == d * n + n;
    if d > 0 {
      Ring.AtLeastOnce(d, n);
    }
  }

  /** `struct pcap_src` with a cache; `loop` is `current_loop` before it wraps. */
  class Source {
    const cache: Cache
    const loops: nat
    /** How often the file was to be sent; 0 is forever. */
    ghost const requested: nat
    var currentLoop: nat
    ghost var loop: nat
    ghost const file: seq<seq<byte>>
    /** The packets handed to the queue so far. */
    ghost var sent: seq<seq<byte>>

    ghost predicate Valid()
      reads this, cache, cache.packets, cache.sizes
    {
      && cache.Valid() && cache.Contents() == file
      && Sent(sent, file, loop, cache.offset)
      && (loops > 0 ==> currentLoop == loop <= loops < 0x1_0000_0000)
      && loops == requested % 0x1_0000_0000
    }

    /** pcap_src_open, with a cache that has been read; the count of loops is cut to 32 bits. */
    constructor (cache: Cache, loops: nat)
      requires cache.Valid() && cache.offset == 0
      ensures Valid() && this.cache == cache && requested == loops && sent == [] && file == cache.Contents()
      ensures loop == 1
    {
      this.cache, this.loops, requested, currentLoop := cache, loops % 0x1_0000_0000, loops, 1;
      loop, file, sent := 1, cache.Contents(), [];
    }

    /** The packets of the file the next burst of at most `cnt` starts with. */
    ghost function Next(cnt: nat): seq<seq<byte>>
      requires Valid() && cache.offset + cnt <= |file|
      reads this, cache, cache.packets, cache.sizes
    {
      file[cache.offset..cache.offset + cnt]
    }

    /** At the end of the file: back to its start, unless all loops are done. */
    method Rewind() returns (done: bool)
      requires Valid()
      modifies this`currentLoop, this`loop, cache`offset
      ensures Valid() && sent == old(sent)
      ensures done ==> loops > 0 && sent == Repeat(file, loops)
      ensures !done && cache.offset == |file| ==> file == [] && (loops > 0 ==> sent == Repeat(file, loops))
      ensures !done ==> cache.offset == if old(cache.offset) == |file| then 0 else old(cache.offset)
      ensures file != [] ==> (done <==> Complete(file, loops, sent))
    {
      hide Sent, Repeat;
      if file != [] && loops > 0 {
        AtEnd(sent, file, loop, cache.offset, loops);
      }
      done := false;
      if cache.offset == cache.items {
        SentAgain(sent, file, loop);
        EmptyRepeats(file, loop);
        EmptyRepeats(file, loops);
        if loops == 0 || currentLoop < loops {
          currentLoop := (currentLoop + 1) % 0x1_0000_0000;
          loop := loop + 1;
          cache.offset := 0;
        } else {
          done := true;
        }
      }
    }

    /** pcap_src_burst_fill_meta: none exactly when all loops are done or the file is empty. */
    method FillMeta(lengths: array<nat>, count: nat) returns (cnt: nat)
      requires Valid() && 0 < count <= lengths.Length && lengths != cache.sizes
      modifies this`currentLoop, this`loop, cache`offset, lengths
      ensures Valid() && sent == old(sent) && cnt <= count && cache.offset + cnt <= |file|
      ensures forall i | 0 <= i < cnt :: lengths[i] == |Next(cnt)[i]|
      ensures cnt == 0 ==> (if loops > 0 then sent == Repeat(file, loops) else file == [])
      ensures cnt == 0 <==> Complete(file, loops, sent)
      ensures cnt > 0 ==> Next(cnt) == Upcoming(file, |sent|, count)
    {
      hide Sent, Repeat;
      if file != [] {
        Place(sent, file, loop, cache.offset);
      }
      var done := Rewind();
      if done {
        return 0;
      }
      cnt := count;
      if cnt >= cache.items - cache.offset {
        cnt := cache.items - cache.offset;
      }
      FillLengths(lengths, cnt);
    }

    method FillLengths(lengths: array<nat>, cnt: nat)
      requires Valid() && cnt <= lengths.Length && lengths != cache.sizes && cache.offset + cnt <= |file|
      modifies lengths
      ensures Valid() && forall i | 0 <= i < cnt :: lengths[i] == |Next(cnt)[i]|
    {
      hide Sent;
      for i := 0 to cnt
        invariant Valid()
        invariant forall j | 0 <= j < i :: lengths[j] == |Next(cnt)[j]|
      {
        lengths[i] := cache.sizes[cache.offset + i];
      }
    }

    /** pcap_src_burst_fill_data: the packets the queue took get their data. */
    method FillData(data: array<seq<byte>>, cnt: nat)
      requires Valid() && cnt <= data.Length && data != cache.packets && cache.offset + cnt <= |file|
      modifies this`sent, cache`offset, data
      ensures Valid() && data[..cnt] == old(Next(cnt)) && sent == old(sent) + data[..cnt]
    {
      for i := 0 to cnt
        invariant Valid() && sent == old(sent) && cache.offset == old(cache.offset)
        invariant forall j | 0 <= j < i :: data[j] == Next(cnt)[j]
      {
        data[i] := cache.packets[cache.offset + i];
      }
      SentMore(sent, file, loop, cache.offset, cnt);
      assert data[..cnt] == Next(cnt);
      sent := sent + Next(cnt);
      cache.offset := cache.offset + cnt;
    }
  }

  lemma {:induction false} EmptyRepeats(ps: seq<seq<byte>>, k: nat)
    ensures ps == [] ==> Repeat(ps, k) == []
    decreases k
  {
    if k > 0 {
      EmptyRepeats(ps, k - 1);
    }
  }

  /** Why the loop ends. */
  datatype End = Stopped | PacketLimit | ByteLimit | Exhausted | TooShort

  ghost predicate LongEnough(ps: seq<seq<byte>>, minLen: nat) {
    forall i | 0 <= i < |ps| :: |ps[i]| >= minLen
  }

  function Least(a: nat, b: nat): nat {
    if a < b then a else b
  }

  /** What a replay is asked for. */
  datatype Plan = Plan(
    file: seq<seq<byte>>,
    loops: nat,
    txBurst: nat,
    limitPackets: nat,
    limitBytes: nat,
    minLen: nat)
  {
    /** The burst after `sent` packets: less when the packet limit is nearer. */
    function Ask(sent: nat): nat {
      if limitPackets > 0 && sent <= limitPackets then Least(txBurst, limitPackets - sent) else txBurst
    }

    /** The packets offered to the queue after `sent`. */
    function Offered(sent: nat): seq<seq<byte>> {
      if file == [] then [] else Upcoming(file, sent, Ask(sent))
    }

    /** Why the replay ends after `sent`, or goes on. */
    ghost function Ends(sent: seq<seq<byte>>): End {
      if 0 < limitPackets == |sent| then PacketLimit
      else if 0 < limitBytes < Length(sent) then ByteLimit
      else if Complete(file, loops, sent) then Exhausted
      else if !LongEnough(Offered(|sent|), minLen) then TooShort
      else Stopped
    }

    /** Every try sends the first of the packets offered, as many as the queue takes, and is made only before an end. */
    ghost predicate Sends(grants: seq<nat>, views: seq<seq<seq<byte>>>) {
      && 0 < |views| <= |grants| + 1
      && forall t | 0 <= t < |views| - 1 ::
           && Ends(views[t]) == Stopped
           && views[t + 1] == views[t] + Offered(|views[t]|)[..Least(grants[t], |Offered(|views[t]|)|)]
    }
  }

  /** Before a limit is reached, the source tells whether it goes on. */
  lemma EndsAs(plan: Plan, sent: seq<seq<byte>>, burst: nat, end: End)
    requires plan.limitPackets == 0 || |sent| != plan.limitPackets
    requires plan.limitBytes == 0 || Length(sent) <= plan.limitBytes
    requires burst == plan.Ask(|sent|)
    requires end == Exhausted || end == TooShort || end == Stopped
    requires end == Exhausted <==> Complete(plan.file, plan.loops, sent)
    requires end == TooShort <==>
               && !Complete(plan.file, plan.loops, sent)
               && !LongEnough(Upcoming(plan.file, |sent|, burst), plan.minLen)
    ensures plan.Ends(sent) == end
    ensures end != Exhausted ==> plan.file != [] && plan.Offered(|sent|) == Upcoming(plan.file, |sent|, burst)
    ensures end == TooShort ==> !LongEnough(plan.file, plan.minLen)
  {
    hide Length, Repeat;
    if end == TooShort {
      var o := Upcoming(plan.file, |sent|, burst);
      var i :| 0 <= i < |o| && |o[i]| < plan.minLen;
      assert plan.file[|sent| % |plan.file| + i] == o[i];
    }
  }

  lemma SendsMore(plan: Plan, grants: seq<nat>, views: seq<seq<seq<byte>>>, sent: seq<seq<byte>>)
    requires plan.Sends(grants, views) && |views| <= |grants| && plan.Ends(views[|views| - 1]) == Stopped
    requires var (v, o) := (views[|views| - 1], plan.Offered(|views[|views| - 1]|));
             sent == v + o[..Least(grants[|views| - 1], |o|)]
    ensures plan.Sends(grants, views + [sent])
  {
    hide Plan.Ends, Plan.Offered;
  }

  lemma SendsNothing(plan: Plan, grants: seq<nat>)
    ensures plan.Sends(grants, [[]])
  {
    hide Plan.Ends, Plan.Offered;
  }

  /**
   ndp_mode_transmit_loop, until it is stopped after as many tries as `grants` has; each says
   how much of the burst the queue takes. Every try sends as much of what it offers as the queue
   takes, none or all, and it goes on until one of the ends is due, as the views of what is sent
   tell. What is sent is the file, over and over, and all of it when the loop ends by itself; it
   never passes a packet limit, and has no packet shorter than the minimum.
   */
  method Transmit(src: Source, grants: seq<nat>, txBurst: nat, limitPackets: nat, limitBytes: nat, minLen: nat)
    returns (end: End, ghost views: seq<seq<seq<byte>>>)
    requires src.Valid() && src.sent == [] && txBurst > 0
    modifies src, src.cache
    ensures src.Valid()
    ensures var plan := Plan(src.file, src.loops, txBurst, limitPackets, limitBytes, minLen);
            && plan.Sends(grants, views) && views[0] == [] && views[|views| - 1] == src.sent
            && if |views| == |grants| + 1 then end == Stopped else end == plan.Ends(src.sent) != Stopped
    ensures src.loops > 0 ==> src.sent <= Repeat(src.file, src.loops)
    ensures src.loops > 0 ==> Left(src.file, src.loops, src.sent) >= 0
    ensures src.loops > 0 && end == Exhausted ==> Left(src.file, src.loops, src.sent) == 0
    // Ending by itself, it has sent the file as often as was asked, if and only if 32 bits hold the number.
    ensures end == Exhausted ==>
              (src.sent == Repeat(src.file, src.requested) <==> src.requested < 0x1_0000_0000 || src.file == [])
    // Asked to send it 4294967296 times, it goes on for as long as the queue takes packets.
    ensures src.requested == 0x1_0000_0000 && src.file != [] ==> end != Exhausted
    ensures end == Stopped && (forall i | 0 <= i < |grants| :: grants[i] > 0) ==> |grants| <= |src.sent|
    ensures exists k :: src.sent <= Repeat(src.file, k)
    ensures limitPackets > 0 ==> |src.sent| <= limitPackets
    ensures LongEnough(src.sent, minLen)
    ensures Ended(end, src.sent, src.file, src.loops, limitPackets, limitBytes, minLen)
  {
    hide Sent, Repeat, Length, LongEnough, Plan.Sends, Plan.Ends;
    ghost var plan := Plan(src.file, src.loops, txBurst, limitPackets, limitBytes, minLen);
    end, views := TransmitLoop(src, grants, plan, txBurst, limitPackets, limitBytes, minLen);
    if src.loops > 0 {
      SentPrefix(src.sent, src.file, src.loop, src.cache.offset, src.loops);
      RepeatSize(src.file, src.loops);
    }
    SentPrefix(src.sent, src.file, src.loop, src.cache.offset, src.loop);
    RepeatSame(src.file, src.loops, src.requested);
    EmptyRepeats(src.file, src.loop);
    EmptyRepeats(src.file, src.requested);
  }

  /** What each way of ending means. */
  ghost predicate Ended(end: End, sent: seq<seq<byte>>, file: seq<seq<byte>>, loops: nat, limitPackets: nat,
                        limitBytes: nat, minLen: nat)
  {
    match end
    case Stopped => true
    case PacketLimit => 0 < limitPackets == |sent|
    case ByteLimit => 0 < limitBytes < Length(sent)
    case Exhausted => if loops > 0 then sent == Repeat(file, loops) else file == []
    case TooShort => !LongEnough(file, minLen)
  }

  method TransmitLoop(src: Source, grants: seq<nat>, ghost plan: Plan, txBurst: nat, limitPackets: nat, limitBytes: nat,
                      minLen: nat)
    returns (end: End, ghost views: seq<seq<seq<byte>>>)
    requires src.Valid() && src.sent == [] && txBurst > 0
    requires plan == Plan(src.file, src.loops, txBurst, limitPackets, limitBytes, minLen)
    modifies src, src.cache
    ensures src.Valid()
    ensures plan.Sends(grants, views) && views[0] == [] && views[|views| - 1] == src.sent
    ensures if |views| == |grants| + 1 then end == Stopped else end == plan.Ends(src.sent) != Stopped
    ensures end == Stopped && (forall i | 0 <= i < |grants| :: grants[i] > 0) ==> |grants| <= |src.sent|
    ensures limitPackets > 0 ==> |src.sent| <= limitPackets
    ensures LongEnough(src.sent, minLen)
    ensures Ended(end, src.sent, src.file, src.loops, limitPackets, limitBytes, minLen)
  {
    hide Sent, Repeat, Length, Plan.Sends, Plan.Offered, LongEnough, Complete, Upcoming;
    var burst := txBurst;
    var lengths := new nat[burst];
    var data := new seq<byte>[burst];
    var packetCnt, bytesCnt := 0, 0;
    end, views := Stopped, [[]];
    var t := 0;
    SendsNothing(plan, grants);
    SentNothing(minLen);
    while t < |grants|
      invariant src.Valid() && 0 < burst <= lengths.Length == data.Length
      invariant burst <= txBurst && (burst < txBurst ==> 0 < limitPackets <= packetCnt + burst)
      invariant lengths != src.cache.sizes && data != src.cache.packets
      invariant t <= |grants| && ((forall i | 0 <= i < t :: grants[i] > 0) ==> t <= |src.sent|)
      invariant packetCnt == |src.sent| && bytesCnt == Length(src.sent)
      invariant limitPackets > 0 ==> packetCnt <= limitPackets
      invariant LongEnough(src.sent, minLen) && end == Stopped
      invariant |views| == t + 1 && views[0] == [] && views[t] == src.sent && plan.Sends(grants, views)
    {
      if limitPackets > 0 {
        if packetCnt == limitPackets {
          end := PacketLimit;
          break;
        }
        if packetCnt + burst > limitPackets {
          burst := limitPackets - packetCnt;
        }
      }
      if limitBytes > 0 && bytesCnt > limitBytes {
        end := ByteLimit;
        break;
      }
      ghost var before := src.sent;
      var cnt;
      end, cnt := Burst(src, lengths, data, burst, grants[t], minLen);
      EndsAs(plan, before, burst, end);
      if end != Stopped {
        assert src.sent == before;
        break;
      }
      SendsMore(plan, grants, views, src.sent);
      views := views + [src.sent];
      t := t + 1;
      LengthConcat(before, data[..cnt]);
      LongEnoughConcat(before, data[..cnt], minLen);
      packetCnt := packetCnt + cnt;
      bytesCnt := bytesCnt + Length(data[..cnt]);
    }
  }

  /** One burst: ask the source, refuse short packets, and send what the queue takes. */
  method Burst(src: Source, lengths: array<nat>, data: array<seq<byte>>, burst: nat, grant: nat, minLen: nat)
    returns (end: End, cnt: nat)
    requires src.Valid() && 0 < burst <= lengths.Length == data.Length
    requires lengths != src.cache.sizes && data != src.cache.packets
    modifies src, src.cache`offset, lengths, data
    ensures src.Valid() && cnt <= burst && src.sent == old(src.sent) + data[..cnt] && LongEnough(data[..cnt], minLen)
    ensures Left(src.file, src.loops, src.sent) == old(Left(src.file, src.loops, src.sent)) - cnt
    ensures end == Exhausted <==> Complete(src.file, src.loops, old(src.sent))
    ensures end == TooShort <==>
              && !Complete(src.file, src.loops, old(src.sent))
              && !LongEnough(Upcoming(src.file, |old(src.sent)|, burst), minLen)
    ensures end == Exhausted || end == TooShort || end == Stopped
    ensures end != Stopped ==> cnt == 0 && src.sent == old(src.sent)
    ensures end == Exhausted ==> if src.loops > 0 then src.sent == Repeat(src.file, src.loops) else src.file == []
    ensures end == Stopped ==> src.file != [] && (grant > 0 ==> cnt > 0)
    ensures end == Stopped ==>
              var offered := Upcoming(src.file, |old(src.sent)|, burst);
              src.sent == old(src.sent) + offered[..Least(grant, |offered|)]
  {
    hide Sent, Repeat, Upcoming;
    cnt := src.FillMeta(lengths, burst);
    if cnt == 0 {
      return Exhausted, 0;
    }
    var tooShort := AnyShorter(lengths, cnt, minLen);
    if tooShort {
      var i :| 0 <= i < cnt && lengths[i] < minLen;
      assert src.Next(cnt)[i] == src.file[src.cache.offset + i];
      return TooShort, 0;
    }
    ghost var ready := src.Next(cnt);
    cnt := if grant < cnt then grant else cnt;
    assert src.Next(cnt) == ready[..cnt];
    src.FillData(data, cnt);
    end := Stopped;
  }

  method AnyShorter(lengths: array<nat>, n: nat, minLen: nat) returns (tooShort: bool)
    requires n <= lengths.Length
    ensures tooShort <==> exists i :: 0 <= i < n && lengths[i] < minLen
  {
    tooShort := false;
    for i := 0 to n
      invariant tooShort <==> exists j :: 0 <= j < i && lengths[j] < minLen
    {
      if lengths[i] < minLen {
        tooShort := true;
      }
    }
  }

  lemma LongEnoughConcat(a: seq<seq<byte>>, b: seq<seq<byte>>, minLen: nat)
    requires LongEnough(a, minLen) && LongEnough(b, minLen)
    ensures LongEnough(a + b, minLen)
  {
  }

  lemma SentNothing(minLen: nat)
    ensures Length([]) == 0 && LongEnough([], minLen)
  {
  }
}
