/** The pacing of `janus_auviousrecordplay_playout_thread`: two cursors, one
    over the audio list and one over the video list, each sending its next
    packet (audio) or same-timestamp burst (video) when the time elapsed
    since its reference instant has caught up with the RTP timestamp gap.

    Clock rates follow RFC 3551: 8 kHz for the static audio payload types
    PCMU (0), PCMA (8) and G722 (9) of section 6, 48 kHz for any other audio,
    and 90 kHz for video (section 5). */
module Playout {
  import opened Bytes
  import opened FrameIndex

  const Million: int := 1_000_000
  /** A packet may be sent up to 5 ms early. */
  const Slack: int := 5000
  const VideoKhz: nat := 90

  /** `akhz`: 8 kHz for payload types 0, 8 and 9, 48 kHz otherwise
      (lines 2313-2316). */
  function AudioKhz(pt: int): (khz: nat)
    ensures khz == 8 || khz == 48
    ensures khz == 8 <==> pt == 0 || pt == 8 || pt == 9
  {
    if pt == 0 || pt == 8 || pt == 9 then 8 else 48
  }

  // ------------------------------------------------------------ time

  /** A `struct timeval`. */
  datatype TimeVal = TimeVal(sec: int, usec: int)

  function Micros(t: TimeVal): int
  {
    t.sec * Million + t.usec
  }

  /** C's signed `/`: the quotient truncated toward zero. */
  function CDiv(a: int, b: int): int
    requires b > 0
  {
    if a >= 0 then a / b else -((-a) / b)
  }

  /** C's signed `%`. */
  function CMod(a: int, b: int): int
    requires b > 0
  {
    a - CDiv(a, b) * b
  }

  /** C's division identity: the quotient truncates toward zero and the
      remainder takes the sign of the dividend (section 6.5.5 of ISO C99). */
  lemma CDivMod(a: int, b: int)
    requires b > 0
    ensures a == CDiv(a, b) * b + CMod(a, b)
    ensures a >= 0 ==> 0 <= CMod(a, b) < b && CDiv(a, b) == a / b
    ensures a < 0 ==> -b < CMod(a, b) <= 0 && CDiv(a, b) == -((-a) / b)
  {
  }

  /** `ts_diff`: the timestamp step between two packets in microseconds,
      `(ts - prev) * 1000 / khz` (lines 2349-2350 and 2414-2415). */
  function Gap(prev: int, ts: int, khz: nat): int
    requires khz > 0
  {
    CDiv((ts - prev) * 1000, khz)
  }

  /** In a list sorted by timestamp gaps are never negative; equal
      timestamps have no gap. */
  lemma GapNonNegative(prev: int, ts: int, khz: nat)
    requires khz > 0 && prev <= ts
    ensures Gap(prev, ts, khz) >= 0
    ensures prev == ts ==> Gap(prev, ts, khz) == 0
  {
  }

  /** A 20 ms Opus frame (960 ticks at 48 kHz), a 20 ms G.711 frame (160
      ticks at 8 kHz) and a 30 fps video frame (3000 ticks at 90 kHz). */
  lemma GapExamples()
    ensures Gap(0, 960, 48) == 20000
    ensures Gap(0, 160, 8) == 20000
    ensures Gap(0, 3000, VideoKhz) == 33333
  {
  }

  /** `passed`: the microseconds from `before` to `now`, computed as seconds
      and microseconds with a borrow (lines 2352-2359). The borrow does not
      change the value. */
  function Elapsed(now: TimeVal, before: TimeVal): (passed: int)
    ensures passed == Micros(now) - Micros(before)
  {
    var ds := now.sec - before.sec;
    var dus := now.usec - before.usec;
    if dus < 0 then (ds - 1) * Million + (dus + Million) else ds * Million + dus
  }

  /** The reference-time update after a send (lines 2363-2371): the
      microseconds of the gap are added with a carry when they exceed one
      second, then the gap's whole seconds are added to the seconds and
      also subtracted from the microseconds. The instant moves forward by
      exactly the gap below one second, and by the gap less its number of
      whole seconds, in microseconds, from one second on. */
  function Advance(before: TimeVal, gap: int): TimeVal
  {
    var usec := before.usec + CMod(gap, Million);
    var t := if usec > Million then TimeVal(before.sec + 1, usec - Million) else TimeVal(before.sec, usec);
    var q := CDiv(gap, Million);
    if q > 0 then TimeVal(t.sec + q, t.usec - q) else t
  }

  lemma AdvanceMoves(before: TimeVal, gap: int)
    requires gap >= 0
    ensures gap < Million ==> Micros(Advance(before, gap)) == Micros(before) + gap
    ensures gap >= Million ==> Micros(Advance(before, gap)) == Micros(before) + gap - gap / Million
  {
    CDivMod(gap, Million);
  }

  /** A gap of 2.5 s moves the reference instant by 2 µs less than 2.5 s. */
  lemma AdvanceLongGap(before: TimeVal)
    ensures Micros(Advance(before, 2_500_000)) == Micros(before) + 2_499_998
  {
    AdvanceMoves(before, 2_500_000);
  }

  // ----------------------------------------------------------- relaying

  /** A packet handed to `relay_rtp`. */
  datatype Relayed = Relayed(video: bool, data: seq<byte>)

  /** The buffer after `rtp->type = pt`. */
  function WithPayloadType(data: seq<byte>, pt: nat): (r: seq<byte>)
    requires pt < 128
    ensures |r| == |data|
  {
    if |data| < 2 then data
    else data[1 := ((data[1] as int / 128) * 128 + pt) as byte]
  }

  /** Setting the payload type replaces the 7 low bits of byte 1, keeps
      its marker bit and leaves every other byte alone (section 5.1 of
      RFC 3550). */
  lemma PayloadTypeSet(data: seq<byte>, pt: nat)
    requires pt < 128
    ensures var r := WithPayloadType(data, pt);
      && (forall i :: 0 <= i < |data| && i != 1 ==> r[i] == data[i])
      && (|data| >= 2 ==> r[1] as int % 128 == pt && r[1] as int / 128 == data[1] as int / 128)
  {
  }

  /** What is relayed for packet `p`: the `len` bytes read at its offset,
      with the track's payload type. */
  function Relay(video: bool, file: seq<byte>, p: Packet, pt: nat): (r: Relayed)
    requires pt < 128
    ensures r.video == video && |r.data| <= p.len
    ensures p.offset + p.len <= |file| ==> |r.data| == p.len
  {
    Relayed(video, WithPayloadType(Read(file, p.offset, p.len), pt))
  }

  /** What is relayed for `ps`, one packet after the other. */
  function Relays(video: bool, file: seq<byte>, pt: nat, ps: seq<Packet>): (r: seq<Relayed>)
    requires pt < 128
    ensures |r| == |ps|
  {
    if ps == [] then [] else Relays(video, file, pt, ps[..|ps| - 1]) + [Relay(video, file, ps[|ps| - 1], pt)]
  }

  /** Relaying one more packet of a list. */
  lemma RelaysExtend(video: bool, file: seq<byte>, pt: nat, frames: seq<Packet>, start: nat, i: nat)
    requires pt < 128 && start <= i < |frames|
    ensures Relays(video, file, pt, frames[start..i + 1])
         == Relays(video, file, pt, frames[start..i]) + [Relay(video, file, frames[i], pt)]
  {
    var ps := frames[start..i + 1];
    assert ps[..|ps| - 1] == frames[start..i];
    assert ps[|ps| - 1] == frames[i];
  }

  /** Relaying packet `i` after the packets from `start` up to it. */
  lemma RelaysStep(video: bool, file: seq<byte>, pt: nat, frames: seq<Packet>, start: nat, i: nat, j: nat,
                   out: seq<Relayed>, r: Relayed)
    requires pt < 128 && start <= i < |frames| && j == i + 1
    requires out == Relays(video, file, pt, frames[start..i]) && r == Relay(video, file, frames[i], pt)
    ensures out + [r] == Relays(video, file, pt, frames[start..j])
  {
    RelaysExtend(video, file, pt, frames, start, i);
  }

  /** Packet `i` of `ps` is relayed as the `i`-th. */
  lemma {:induction false} RelaysAt(video: bool, file: seq<byte>, pt: nat, ps: seq<Packet>, i: nat)
    requires pt < 128 && i < |ps|
    ensures Relays(video, file, pt, ps)[i] == Relay(video, file, ps[i], pt)
    decreases |ps|
  {
    if i < |ps| - 1 {
      RelaysAt(video, file, pt, ps[..|ps| - 1], i);
    }
  }

  lemma {:induction false} RelaysAppend(video: bool, file: seq<byte>, pt: nat, a: seq<Packet>, b: seq<Packet>)
    requires pt < 128
    ensures Relays(video, file, pt, a + b) == Relays(video, file, pt, a) + Relays(video, file, pt, b)
    decreases |b|
  {
    if b == [] {
      assert a + b == a;
    } else {
      var n := |b|;
      assert (a + b)[..|a + b| - 1] == a + b[..n - 1];
      RelaysAppend(video, file, pt, a, b[..n - 1]);
    }
  }

  // ------------------------------------------------- one track, one tick

  /** A track's cursor (the list position of the next packet, the length of
      the list once it ran out) and its reference instant. */
  datatype Lane = Lane(at: nat, before: TimeVal)

  /** What a track does in one tick: its new lane, whether it sent, and the
      packets it sent. */
  datatype Turn = Turn(lane: Lane, sent: bool, burst: seq<Packet>)

  /** The end of the run of packets sharing the timestamp of packet `i`. */
  function BurstEnd(frames: seq<Packet>, i: nat): (j: nat)
    requires i < |frames|
    ensures i < j <= |frames|
    ensures forall k :: i <= k < j ==> frames[k].ts == frames[i].ts
    ensures j < |frames| ==> frames[j].ts != frames[i].ts
    decreases |frames| - i
  {
    if i + 1 < |frames| && frames[i + 1].ts == frames[i].ts then BurstEnd(frames, i + 1) else i + 1
  }

  /** Up to its end a run continues exactly while the timestamp stays the same. */
  lemma BurstEndAt(frames: seq<Packet>, start: nat, i: nat)
    requires start < |frames| && start <= i <= BurstEnd(frames, start)
    ensures i < BurstEnd(frames, start) <==> i < |frames| && frames[i].ts == frames[start].ts
  {
  }

  /** One tick of one track (lines 2323-2388 for audio, 2389-2461 for
      video). The first packet is sent at once and the reference instant
      set to now; a later packet waits until the time elapsed since the
      reference instant reaches its gap less 5 ms, and then the reference
      instant advances by the gap. Audio sends one packet; video sends the
      whole run of packets sharing the timestamp. */
  function TrackTurn(frames: seq<Packet>, l: Lane, khz: nat, now: TimeVal, burst: bool): (t: Turn)
    requires l.at <= |frames| && khz > 0
    ensures l.at <= t.lane.at <= |frames| && t.burst == frames[l.at..t.lane.at]
    ensures t.sent <==> t.burst != []
    ensures !t.sent ==> t.lane == l
    ensures t.sent && !burst ==> t.lane.at == l.at + 1
    ensures t.sent && burst ==> t.lane.at == BurstEnd(frames, l.at)
  {
    if l.at == |frames| then Turn(l, false, [])
    else
      var next := if burst then BurstEnd(frames, l.at) else l.at + 1;
      if l.at == 0 then Turn(Lane(next, now), true, frames[..next])
      else
        var gap := Gap(frames[l.at - 1].ts, frames[l.at].ts, khz);
        if Elapsed(now, l.before) < gap - Slack then Turn(l, false, [])
        else Turn(Lane(next, Advance(l.before, gap)), true, frames[l.at..next])
  }

  /** When a track sends: its first packet at once, a later one once the
      time elapsed since the reference instant, in microseconds, reaches
      the packet's gap less 5 ms; the reference instant then becomes now,
      or moves on by the gap. */
  lemma TrackTurnTiming(frames: seq<Packet>, l: Lane, khz: nat, now: TimeVal, burst: bool)
    requires l.at <= |frames| && khz > 0
    ensures var t := TrackTurn(frames, l, khz, now, burst);
      && (l.at == |frames| ==> !t.sent)
      && (l.at == 0 < |frames| ==> t.sent && t.lane.before == now)
      && (0 < l.at < |frames| ==>
            var gap := Gap(frames[l.at - 1].ts, frames[l.at].ts, khz);
            && (t.sent <==> Micros(now) - Micros(l.before) >= gap - Slack)
            && (t.sent ==> t.lane.before == Advance(l.before, gap)))
  {
  }

  /** A video send transmits packets of one timestamp only, and in a sorted
      list the packet it stops at is strictly later. */
  lemma BurstIsOneTimestamp(frames: seq<Packet>, l: Lane, khz: nat, now: TimeVal)
    requires l.at <= |frames| && khz > 0 && SortedByTs(frames)
    ensures var t := TrackTurn(frames, l, khz, now, true);
      && (forall p :: p in t.burst ==> p.ts == frames[l.at].ts)
      && (t.sent && t.lane.at < |frames| ==> frames[t.lane.at].ts > frames[l.at].ts)
  {
    var t := TrackTurn(frames, l, khz, now, true);
    if t.sent && t.lane.at < |frames| {
      assert frames[l.at].ts <= frames[t.lane.at].ts;
    }
  }

  /** A track over a sequence of ticks: the lane it ends in and everything
      it sent. */
  datatype Played = Played(lane: Lane, sent: seq<Packet>)

  function Run(frames: seq<Packet>, l: Lane, khz: nat, nows: seq<TimeVal>, burst: bool): (r: Played)
    requires l.at <= |frames| && khz > 0
    ensures r.lane.at <= |frames|
    decreases |nows|
  {
    if nows == [] then Played(l, [])
    else
      var t := TrackTurn(frames, l, khz, nows[0], burst);
      var rest := Run(frames, t.lane, khz, nows[1..], burst);
      Played(rest.lane, t.burst + rest.sent)
  }

  /** Whatever the clock readings, a track sends its list in order, each
      packet once, none skipped. */
  lemma {:induction false} RunPlaysInOrder(frames: seq<Packet>, l: Lane, khz: nat, nows: seq<TimeVal>, burst: bool)
    requires l.at <= |frames| && khz > 0
    ensures var r := Run(frames, l, khz, nows, burst);
      l.at <= r.lane.at && r.sent == frames[l.at..r.lane.at]
    decreases |nows|
  {
    if nows != [] {
      var t := TrackTurn(frames, l, khz, nows[0], burst);
      RunPlaysInOrder(frames, t.lane, khz, nows[1..], burst);
      var rest := Run(frames, t.lane, khz, nows[1..], burst);
      assert frames[l.at..t.lane.at] + frames[t.lane.at..rest.lane.at] == frames[l.at..rest.lane.at];
    }
  }

  /** One more tick at the end of a run. */
  lemma {:induction false} RunSnoc(frames: seq<Packet>, l: Lane, khz: nat, nows: seq<TimeVal>, now: TimeVal, burst: bool)
    requires l.at <= |frames| && khz > 0
    ensures var r := Run(frames, l, khz, nows, burst);
      var t := TrackTurn(frames, r.lane, khz, now, burst);
      Run(frames, l, khz, nows + [now], burst) == Played(t.lane, r.sent + t.burst)
    decreases |nows|
  {
    if nows == [] {
      assert [now][1..] == [];
    } else {
      var t := TrackTurn(frames, l, khz, nows[0], burst);
      assert (nows + [now])[1..] == nows[1..] + [now];
      RunSnoc(frames, t.lane, khz, nows[1..], now, burst);
      var r := Run(frames, t.lane, khz, nows[1..], burst);
      var u := TrackTurn(frames, r.lane, khz, now, burst);
      assert t.burst + (r.sent + u.burst) == (t.burst + r.sent) + u.burst;
    }
  }

  /** The packets relayed on one track, in relay order. */
  function OnTrack(rs: seq<Relayed>, video: bool): (r: seq<Relayed>)
    ensures |r| <= |rs|
  {
    if rs == [] then []
    else OnTrack(rs[..|rs| - 1], video) + (if rs[|rs| - 1].video == video then [rs[|rs| - 1]] else [])
  }

  lemma {:induction false} OnTrackAppend(a: seq<Relayed>, b: seq<Relayed>, video: bool)
    ensures OnTrack(a + b, video) == OnTrack(a, video) + OnTrack(b, video)
    decreases |b|
  {
    if b == [] {
      assert a + b == a;
    } else {
      var n := |b|;
      assert (a + b)[..|a + b| - 1] == a + b[..n - 1];
      OnTrackAppend(a, b[..n - 1], video);
    }
  }

  /** Relays of one track are kept by its own filter and dropped by the other. */
  lemma {:induction false} OnTrackRelays(video: bool, file: seq<byte>, pt: nat, ps: seq<Packet>, other: bool)
    requires pt < 128
    ensures OnTrack(Relays(video, file, pt, ps), other) == if video == other then Relays(video, file, pt, ps) else []
    decreases |ps|
  {
    if ps != [] {
      var n := |ps|;
      OnTrackRelays(video, file, pt, ps[..n - 1], other);
      var rs := Relays(video, file, pt, ps);
      assert rs[..|rs| - 1] == Relays(video, file, pt, ps[..n - 1]);
    }
  }

  // ------------------------------------------------------- the thread

  /** The walk a cursor takes from `head` along `next`: the nodes `order`,
      holding `frames`, each linked to the one after it and, through
      `prev`, to the one before it; -1 past either end. */
  ghost predicate ListedIn(nodes: seq<Packet>, next: seq<int>, prev: seq<int>, head: int,
                       order: seq<nat>, frames: seq<Packet>)
  {
    && |order| == |frames| && |next| == |nodes| && |prev| == |nodes|
    && head == (if order == [] then -1 else order[0] as int)
    && (forall i :: 0 <= i < |order| ==> order[i] < |nodes| && nodes[order[i]] == frames[i])
    && (forall i {:trigger next[order[i]]} :: 0 <= i < |order| ==>
          next[order[i]] == if i + 1 < |order| then order[i + 1] as int else -1)
    && (forall i {:trigger prev[order[i]]} :: 0 <= i < |order| ==>
          prev[order[i]] == if i > 0 then order[i - 1] as int else -1)
  }

  /** Following `next` from the head of a well-formed list visits its
      packets in list order. */
  lemma ListWalk(list: FrameList)
    requires list.Valid()
    ensures ListedIn(list.nodes, list.next, list.prev, list.head, list.order, list.Contents())
  {
  }

  /** One track of the playout loop: its list (`session->aframes` or
      `vframes`) and the file it indexes, the payload type and clock rate,
      whether it sends same-timestamp bursts (video), the cursor `audio` or
      `video` as a node number (-1 for NULL), the reference instant
      `abefore` or `vbefore`, and the `asent` or `vsent` flag. The ghost
      `frames` are the list's packets head to tail, `order` their nodes,
      and `at` the list position of the cursor (`|frames|` once it ran
      out). */
  class Track {
    const list: FrameList?
    const file: seq<byte>
    const pt: nat
    const khz: nat
    const video: bool
    ghost const order: seq<nat>
    ghost const frames: seq<Packet>
    var cursor: int
    ghost var at: nat
    var before: TimeVal
    var sent: bool

    /** The list holds `frames` along `order`; it never changes while the
        track plays. */
    ghost predicate Linked()
      reads list
    {
      && pt < 128 && khz > 0
      && if list == null then order == [] && frames == []
         else ListedIn(list.nodes, list.next, list.prev, list.head, order, frames)
    }

    ghost predicate Valid()
      reads this, list
    {
      && Linked()
      && at <= |order|
      && cursor == if at < |order| then order[at] as int else -1
    }

    ghost function Snapshot(): (l: Lane)
      reads this
    {
      Lane(at, before)
    }

    /** The track when the loop starts (lines 2294-2316): the cursor at the
        head of the list, nothing sent, the reference instant now. */
    constructor (list: FrameList?, file: seq<byte>, pt: nat, khz: nat, video: bool, now: TimeVal)
      requires pt < 128 && khz > 0
      requires list != null ==> list.Valid()
      ensures Valid()
      ensures this.list == list && this.file == file && this.pt == pt && this.khz == khz && this.video == video
      ensures frames == if list == null then [] else list.Contents()
      ensures Snapshot() == Lane(0, now) && !sent
    {
      this.list := list;
      this.file := file;
      this.pt := pt;
      this.khz := khz;
      this.video := video;
      if list != null {
        ListWalk(list);
        order := list.order;
        frames := list.Contents();
      } else {
        order := [];
        frames := [];
      }
      cursor := if list == null then -1 else list.head;
      at := 0;
      before := now;
      sent := false;
    }

    /** `audio = audio->next`: the cursor moves one list position on. */
    method MoveOn()
      requires Valid() && cursor != -1
      modifies this`cursor, this`at
      ensures Valid() && old(at) < |frames| && at == old(at) + 1
    {
      assert list.next[cursor] == if at + 1 < |order| then order[at + 1] as int else -1;
      cursor := list.next[cursor];
      at := at + 1;
    }

    /** Relay the packet at the cursor (lines 2327-2341) after `out`, the
        relays of the list from position `start` up to the cursor, and move
        on to the next packet. */
    method SendOne(ghost start: nat, out: seq<Relayed>) returns (out': seq<Relayed>)
      requires Valid() && cursor != -1 && start <= at
      requires out == Relays(video, file, pt, frames[start..at])
      modifies this`cursor, this`at
      ensures Valid()
      ensures old(at) < |frames| && at == old(at) + 1
      ensures out' == Relays(video, file, pt, frames[start..at])
    {
      ghost var i := at;
      var r := Relay(video, file, list.nodes[cursor], pt);
      MoveOn();
      out' := out + [r];
      RelaysStep(video, file, pt, frames, start, i, at, out, r);
    }

    /** Relay the packet at the cursor, or for video the whole run of
        packets sharing its timestamp, and move the cursor past what was
        sent. */
    method Send() returns (out: seq<Relayed>)
      requires Valid() && cursor != -1
      modifies this`cursor, this`at
      ensures Valid()
      ensures old(at) < |frames|
      ensures at == if video then BurstEnd(frames, old(at)) else old(at) + 1
      ensures out == Relays(video, file, pt, frames[old(at)..at])
    {
      if video {
        out := SendBurst();
      } else {
        out := SendOne(at, []);
      }
    }

    /** Relay the packet at the cursor and every packet after it with the
        same timestamp (lines 2393-2406 and 2439-2453). */
    method SendBurst() returns (out: seq<Relayed>)
      requires Valid() && cursor != -1
      modifies this`cursor, this`at
      ensures Valid()
      ensures old(at) < |frames| && at == BurstEnd(frames, old(at))
      ensures out == Relays(video, file, pt, frames[old(at)..at])
    {
      ghost var start := at;
      var ts := list.nodes[cursor].ts;
      out := [];
      while cursor != -1 && list.nodes[cursor].ts == ts
        invariant Valid() && start < |frames| && ts == frames[start].ts
        invariant start <= at <= BurstEnd(frames, start)
        invariant at == start ==> cursor != -1
        invariant out == Relays(video, file, pt, frames[start..at])
        decreases |frames| - at
      {
        BurstEndAt(frames, start, at);
        out := SendOne(start, out);
      }
      BurstEndAt(frames, start, at);
    }

    /** One turn of the track in a loop iteration (lines 2323-2388 for
        audio, 2389-2461 for video): the first packet goes at once and
        `before` becomes now; a later one only once the time elapsed since
        `before` reaches its timestamp gap less 5 ms, `before` then
        advancing by the gap. */
    method Turn(now: TimeVal) returns (out: seq<Relayed>)
      requires Valid()
      modifies this`cursor, this`at, this`before, this`sent
      ensures Valid()
      ensures var t := TrackTurn(frames, old(Snapshot()), khz, now, video);
        Snapshot() == t.lane && sent == t.sent && out == Relays(video, file, pt, t.burst)
    {
      sent := false;
      out := [];
      if cursor == -1 {
        return;
      }
      assert list.prev[cursor] == if at > 0 then order[at - 1] as int else -1;
      if cursor == list.head {
        out := Send();
        before := now;
        sent := true;
        return;
      }
      var prev := list.prev[cursor];
      var gap := Gap(list.nodes[prev].ts, list.nodes[cursor].ts, khz);
      var passed := Elapsed(now, before);
      if passed >= gap - Slack {
        before := Advance(before, gap);
        out := Send();
        sent := true;
      }
    }
  }

  /** A clock reading for each track and whether the session is still live
      (neither it nor the recording destroyed, and the session active). */
  datatype Reading = Reading(audioNow: TimeVal, videoNow: TimeVal, live: bool)

  function AudioNows(rs: seq<Reading>): (r: seq<TimeVal>)
    ensures |r| == |rs| && forall i :: 0 <= i < |rs| ==> r[i] == rs[i].audioNow
  {
    seq(|rs|, i requires 0 <= i < |rs| => rs[i].audioNow)
  }

  function VideoNows(rs: seq<Reading>): (r: seq<TimeVal>)
    ensures |r| == |rs| && forall i :: 0 <= i < |rs| ==> r[i] == rs[i].videoNow
  {
    seq(|rs|, i requires 0 <= i < |rs| => rs[i].videoNow)
  }

  lemma NowsSnoc(rs: seq<Reading>, i: nat)
    requires i < |rs|
    ensures AudioNows(rs[..i + 1]) == AudioNows(rs[..i]) + [rs[i].audioNow]
    ensures VideoNows(rs[..i + 1]) == VideoNows(rs[..i]) + [rs[i].videoNow]
  {
  }

  /** What one loop iteration adds to a track's run: the track's turn, and
      its relays among everything the iteration relayed. */
  lemma TrackStep(frames: seq<Packet>, l0: Lane, khz: nat, nows: seq<TimeVal>, now: TimeVal, video: bool,
                  file: seq<byte>, pt: nat, out: seq<Relayed>, o: seq<Relayed>,
                  otherFile: seq<byte>, otherPt: nat, otherBurst: seq<Packet>)
    requires l0.at <= |frames| && khz > 0 && pt < 128 && otherPt < 128
    requires OnTrack(out, video) == Relays(video, file, pt, Run(frames, l0, khz, nows, video).sent)
    requires var t := TrackTurn(frames, Run(frames, l0, khz, nows, video).lane, khz, now, video);
      var mine, theirs := Relays(video, file, pt, t.burst), Relays(!video, otherFile, otherPt, otherBurst);
      o == if video then theirs + mine else mine + theirs
    ensures var t := TrackTurn(frames, Run(frames, l0, khz, nows, video).lane, khz, now, video);
      var r := Run(frames, l0, khz, nows + [now], video);
      r.lane == t.lane && OnTrack(out + o, video) == Relays(video, file, pt, r.sent)
  {
    var r := Run(frames, l0, khz, nows, video);
    var t := TrackTurn(frames, r.lane, khz, now, video);
    var mine, theirs := Relays(video, file, pt, t.burst), Relays(!video, otherFile, otherPt, otherBurst);
    RunSnoc(frames, l0, khz, nows, now, video);
    OnTrackRelays(video, file, pt, t.burst, video);
    OnTrackRelays(!video, otherFile, otherPt, otherBurst, video);
    assert OnTrack(o, video) == mine by {
      if video {
        OnTrackAppend(theirs, mine, video);
        assert [] + mine == mine;
      } else {
        OnTrackAppend(mine, theirs, video);
        assert mine + [] == mine;
      }
    }
    OnTrackAppend(out, o, video);
    RelaysAppend(video, file, pt, r.sent, t.burst);
  }

  /** One iteration of the playout loop (lines 2320-2461): it began with
      the 5 ms sleep when nothing was sent in the previous one; then audio
      and video take their turns, in that order. */
  method Tick(audio: Track, video: Track, r: Reading) returns (slept: bool, out: seq<Relayed>)
    requires audio != video && audio.Valid() && video.Valid()
    modifies audio`cursor, audio`at, audio`before, audio`sent, video`cursor, video`at, video`before, video`sent
    ensures audio.Valid() && video.Valid()
    ensures slept == (!old(audio.sent) && !old(video.sent))
    ensures var a := TrackTurn(audio.frames, old(audio.Snapshot()), audio.khz, r.audioNow, audio.video);
            var v := TrackTurn(video.frames, old(video.Snapshot()), video.khz, r.videoNow, video.video);
            && audio.Snapshot() == a.lane && audio.sent == a.sent
            && video.Snapshot() == v.lane && video.sent == v.sent
            && out == Relays(audio.video, audio.file, audio.pt, a.burst) + Relays(video.video, video.file, video.pt, v.burst)
  {
    slept := !audio.sent && !video.sent;
    var aout := audio.Turn(r.audioNow);
    var vout := video.Turn(r.videoNow);
    out := aout + vout;
  }

  /** The playout loop (lines 2317-2462) over a finite series of readings:
      it runs while the session is live and a cursor is left. Each track
      behaves as `Run` over its own readings; the loop stops early for a
      live session only once both lists are played. */
  method Playout(audio: Track, video: Track, readings: seq<Reading>) returns (out: seq<Relayed>, ticks: nat)
    requires audio != video && audio.Valid() && video.Valid() && !audio.video && video.video
    modifies audio`cursor, audio`at, audio`before, audio`sent, video`cursor, video`at, video`before, video`sent
    ensures audio.Valid() && video.Valid() && ticks <= |readings|
    ensures var a := Run(audio.frames, old(audio.Snapshot()), audio.khz, AudioNows(readings[..ticks]), false);
      audio.Snapshot() == a.lane && OnTrack(out, false) == Relays(false, audio.file, audio.pt, a.sent)
    ensures var v := Run(video.frames, old(video.Snapshot()), video.khz, VideoNows(readings[..ticks]), true);
      video.Snapshot() == v.lane && OnTrack(out, true) == Relays(true, video.file, video.pt, v.sent)
    ensures ticks < |readings| && readings[ticks].live ==>
      audio.at == |audio.frames| && video.at == |video.frames|
  {
    ghost var (af, al, vf, vl) := (audio.frames, audio.Snapshot(), video.frames, video.Snapshot());
    out, ticks := [], 0;
    while ticks < |readings| && readings[ticks].live && (audio.cursor != -1 || video.cursor != -1)
      invariant audio.Valid() && video.Valid() && ticks <= |readings|
      invariant audio.frames == af && video.frames == vf
      invariant var a := Run(af, al, audio.khz, AudioNows(readings[..ticks]), false);
        audio.Snapshot() == a.lane && OnTrack(out, false) == Relays(false, audio.file, audio.pt, a.sent)
      invariant var v := Run(vf, vl, video.khz, VideoNows(readings[..ticks]), true);
        video.Snapshot() == v.lane && OnTrack(out, true) == Relays(true, video.file, video.pt, v.sent)
      decreases |readings| - ticks
    {
      var r := readings[ticks];
      ghost var a := Run(af, al, audio.khz, AudioNows(readings[..ticks]), false);
      ghost var v := Run(vf, vl, video.khz, VideoNows(readings[..ticks]), true);
      var _, o := Tick(audio, video, r);
      TrackStep(af, al, audio.khz, AudioNows(readings[..ticks]), r.audioNow, false, audio.file, audio.pt,
                out, o, video.file, video.pt, TrackTurn(vf, v.lane, video.khz, r.videoNow, true).burst);
      TrackStep(vf, vl, video.khz, VideoNows(readings[..ticks]), r.videoNow, true, video.file, video.pt,
                out, o, audio.file, audio.pt, TrackTurn(af, a.lane, audio.khz, r.audioNow, false).burst);
      NowsSnoc(readings, ticks);
      out, ticks := out + o, ticks + 1;
    }
  }
}
