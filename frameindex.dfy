/** The frame index builder, `janus_auviousrecordplay_get_frames`: two passes
    over a recording file. Pass 1 validates the records and tracks the RTP
    timestamps to detect a timestamp reset; pass 2 turns every media record
    into a packet with a reset-compensated 64-bit timestamp and inserts it
    into a doubly linked list kept in playback order.

    The sequence number and timestamp are the RTP fixed-header fields of
    section 5.1 of RFC 3550: bytes 2-3 and 4-7 of the payload, big-endian. */
module FrameIndex {
  import opened Bytes
  import opened Container

  /** `UINT32_MAX + 1`, added to post-reset timestamps. */
  const Wrap: nat := 0x1_0000_0000
  /** Subtracted from the first timestamp to leave room for reordering. */
  const Headroom: nat := 1_000_000
  /** A backward timestamp step larger than this is a reset. */
  const ResetJump: nat := 2_000_000_000
  /** A sequence-number gap larger than this is a 16-bit wrap-around. */
  const SeqGap: nat := 10000
  /** Bytes read as the "RTP header" of a record. */
  const RtpRead: nat := 16
  /** Records shorter than this are not RTP. */
  const MinRtp: nat := 12

  /** `janus_auviousrecordplay_frame_packet` without its links. */
  datatype Packet = Packet(seqNo: nat, ts: nat, len: nat, offset: nat)

  // ------------------------------------------------ pass 1: the clock

  /** `first_ts`, `last_ts` and `reset` of pass 1. */
  datatype Clock = Clock(first: nat, last: nat, reset: nat)

  const Unset := Clock(0, 0, 0)

  /** Pass 1's bookkeeping for one more timestamp (lines 2075-2091). The
      first timestamp is taken, less the headroom, while `last_ts` is 0; a
      backward step of more than 2*10^9 records a reset at the new
      timestamp; a forward step below the recorded reset lowers it. */
  function Observe(c: Clock, ts: nat): (r: Clock)
    ensures r.last == ts
    ensures c.last == 0 ==> r.reset == c.reset && r.first <= ts && ts - r.first == (if ts > Headroom then Headroom else 0)
    ensures c.last != 0 ==> r.first == c.first
    ensures c.last != 0 && ts + ResetJump < c.last ==> r.reset == ts
    ensures c.last != 0 && c.last <= ts ==> r.reset == (if ts < c.reset then ts else c.reset)
    ensures c.last != 0 && ts < c.last <= ts + ResetJump ==> r.reset == c.reset
  {
    var c1 :=
      if c.last == 0 then c.(first := if ts > Headroom then ts - Headroom else ts)
      else if ts < c.last then (if c.last - ts > ResetJump then c.(reset := ts) else c)
      else if ts < c.reset then c.(reset := ts)
      else c;
    c1.(last := ts)
  }

  /** The clock after observing `stamps` in file order. */
  function ObserveAll(c: Clock, stamps: seq<nat>): (r: Clock)
    ensures stamps != [] ==> r.last == stamps[|stamps| - 1]
  {
    if stamps == [] then c else Observe(ObserveAll(c, stamps[..|stamps| - 1]), stamps[|stamps| - 1])
  }

  lemma ObserveAllSnoc(stamps: seq<nat>, ts: nat)
    ensures ObserveAll(Unset, stamps + [ts]) == Observe(ObserveAll(Unset, stamps), ts)
  {
    assert (stamps + [ts])[..|stamps|] == stamps;
  }

  /** Timestamp `s[i]` is a backward step of more than the reset threshold. */
  predicate JumpAt(s: seq<nat>, i: nat)
  {
    0 < i < |s| && s[i] + ResetJump < s[i - 1]
  }

  /** A reset is only ever recorded after a backward step of more than
      2*10^9 somewhere in the file. */
  lemma {:induction false} ResetNeedsJump(stamps: seq<nat>)
    requires ObserveAll(Unset, stamps).reset != 0
    ensures exists i :: JumpAt(stamps, i)
  {
    var n := |stamps|;
    var prefix := stamps[..n - 1];
    var c := ObserveAll(Unset, prefix);
    if c.reset != 0 {
      ResetNeedsJump(prefix);
      var i :| JumpAt(prefix, i);
      assert JumpAt(stamps, i);
    } else {
      assert c.last != 0;
      assert n >= 2;
      assert JumpAt(stamps, n - 1);
    }
  }

  /** The extended timestamp of pass 2 (lines 2127-2141): the raw value when
      no reset was seen; otherwise values above `first_ts` are pre-reset and
      kept, the others are post-reset and moved past 2^32. */
  function ExtTs(c: Clock, raw: nat): (r: nat)
    ensures r == raw || r == raw + Wrap
    ensures c.reset == 0 ==> r == raw
    ensures raw < Wrap ==> r < 2 * Wrap
    ensures c.reset != 0 ==> (r == raw + Wrap <==> raw <= c.first)
  {
    if c.reset == 0 then raw
    else if raw > c.first then raw
    else raw + Wrap
  }

  /** After a reset every post-reset packet sorts after every pre-reset one. */
  lemma PostResetAfterPreReset(c: Clock, pre: nat, post: nat)
    requires c.reset != 0 && pre < Wrap && post <= c.first < pre
    ensures ExtTs(c, pre) < ExtTs(c, post)
  {
  }

  /** A wrap from near 2^32 down to a small value is detected as a reset and
      the extended timestamps stay increasing across it. */
  lemma WrapIsDetected()
    ensures ObserveAll(Unset, [4_294_000_000, 5000]).reset == 5000
    ensures var c := ObserveAll(Unset, [4_294_000_000, 5000]);
            ExtTs(c, 4_294_000_000) < ExtTs(c, 5000)
  {
    assert [4_294_000_000, 5000][..1] == [4_294_000_000];
    assert [4_294_000_000][..0] == [];
  }

  // ------------------------------------------- ordering: the backward scan

  /** Whether a new packet `p` goes right after the list node `q`
      (lines 2155-2198): `q` is earlier, or equally timed with a sequence
      number that precedes `p`'s, a gap above 10000 counting as a 16-bit
      wrap-around. */
  predicate GoesAfter(q: Packet, p: Packet)
  {
    || q.ts < p.ts
    || (q.ts == p.ts && q.seqNo < p.seqNo && p.seqNo - q.seqNo < SeqGap)
    || (q.ts == p.ts && q.seqNo > p.seqNo && q.seqNo - p.seqNo > SeqGap)
  }

  /** Where the backward scan from the tail places `p`: right after the last
      node it may follow, or at the head when there is none. */
  function InsertAt(s: seq<Packet>, p: Packet): (k: nat)
    ensures k <= |s|
    ensures k > 0 ==> GoesAfter(s[k - 1], p)
    ensures forall j :: k <= j < |s| ==> !GoesAfter(s[j], p)
  {
    if s == [] then 0
    else if GoesAfter(s[|s| - 1], p) then |s|
    else InsertAt(s[..|s| - 1], p)
  }

  /** The two properties of `InsertAt` determine it. */
  lemma InsertAtUnique(s: seq<Packet>, p: Packet, m: nat)
    requires m <= |s|
    requires m > 0 ==> GoesAfter(s[m - 1], p)
    requires forall j :: m <= j < |s| ==> !GoesAfter(s[j], p)
    ensures InsertAt(s, p) == m
  {
  }

  function Inserted(s: seq<Packet>, p: Packet): (r: seq<Packet>)
    ensures |r| == |s| + 1
  {
    var k := InsertAt(s, p);
    s[..k] + [p] + s[k..]
  }

  /** The list built by inserting `ps` one by one, in file order. */
  function Build(ps: seq<Packet>): (r: seq<Packet>)
    ensures |r| == |ps|
  {
    if ps == [] then [] else Inserted(Build(ps[..|ps| - 1]), ps[|ps| - 1])
  }

  predicate SortedByTs(s: seq<Packet>)
  {
    forall i, j :: 0 <= i < j < |s| ==> s[i].ts <= s[j].ts
  }

  /** Inserting keeps the list non-decreasing in timestamp. */
  lemma InsertedSorted(s: seq<Packet>, p: Packet)
    requires SortedByTs(s)
    ensures SortedByTs(Inserted(s, p))
  {
    var k := InsertAt(s, p);
    var r := Inserted(s, p);
    assert forall j :: 0 <= j < k ==> s[j].ts <= p.ts by {
      if k > 0 {
        forall j | 0 <= j < k ensures s[j].ts <= p.ts {
          assert s[j].ts <= s[k - 1].ts;
        }
      }
    }
    assert forall j :: k <= j < |s| ==> p.ts <= s[j].ts;
    forall i, j | 0 <= i < j < |r| ensures r[i].ts <= r[j].ts {
      if j < k {
      } else if j == k {
        assert r[i] == s[i];
      } else if i < k {
        assert r[i] == s[i] && r[j] == s[j - 1];
      } else if i == k {
        assert r[j] == s[j - 1];
      } else {
        assert r[i] == s[i - 1] && r[j] == s[j - 1];
      }
    }
  }

  lemma InsertedPermutation(s: seq<Packet>, p: Packet)
    ensures multiset(Inserted(s, p)) == multiset(s) + multiset{p}
  {
    var k := InsertAt(s, p);
    assert s == s[..k] + s[k..];
  }

  /** The built list is non-decreasing in timestamp. */
  lemma {:induction false} BuildSorted(ps: seq<Packet>)
    ensures SortedByTs(Build(ps))
  {
    if ps != [] {
      BuildSorted(ps[..|ps| - 1]);
      InsertedSorted(Build(ps[..|ps| - 1]), ps[|ps| - 1]);
    }
  }

  /** The built list holds exactly the inserted packets. */
  lemma {:induction false} BuildPermutation(ps: seq<Packet>)
    ensures multiset(Build(ps)) == multiset(ps)
  {
    if ps != [] {
      var n := |ps|;
      BuildPermutation(ps[..n - 1]);
      InsertedPermutation(Build(ps[..n - 1]), ps[n - 1]);
      assert ps == ps[..n - 1] + [ps[n - 1]];
    }
  }

  /** Equal timestamps, sequence numbers 65530 and 10: whichever comes first
      in the file, 65530 is played first (the gap counts as a wrap-around). */
  lemma WrappedSequenceOrder(t: nat, a: Packet, b: Packet)
    requires a.ts == t && b.ts == t && a.seqNo == 65530 && b.seqNo == 10
    ensures Build([a, b]) == [a, b]
    ensures Build([b, a]) == [a, b]
  {
    assert [a, b][..1] == [a];
    assert [b, a][..1] == [b];
    assert [a][..0] == [] && [b][..0] == [];
    assert GoesAfter(a, b) && !GoesAfter(b, a);
  }

  /** An equal sequence number, or a gap of exactly 10000, never stops the
      scan at an equally timed node. */
  lemma ScanPassesTies(q: Packet, p: Packet)
    requires q.ts == p.ts
    requires q.seqNo == p.seqNo || q.seqNo == p.seqNo + SeqGap || p.seqNo == q.seqNo + SeqGap
    ensures !GoesAfter(q, p)
  {
  }

  // ------------------------------------------------ the walks over a file

  /** The loop variables a pass carries from record to record: the offset,
      whether a header was parsed, the stale `len` and the front of
      `prebuffer`. */
  datatype Cursor = Cursor(offset: nat, parsed: bool, len: nat, window: seq<byte>)

  predicate CursorOk(c: Cursor)
  {
    c.len < 0x1_0000 && |c.window| == WindowSize
  }

  const Start := Cursor(0, false, 0, Zeros(WindowSize))

  /** What pass 1 makes of the record at the cursor. */
  datatype Step = Reject | Overrun | Skip(next: Cursor) | Media(ts: nat, next: Cursor)

  /** The info header keys `get_frames` insists on: the track, and the
      integers "s" and "u" (lines 1991-2047). */
  predicate InfoComplete(info: Info)
  {
    && InfoTrack(info).Some?
    && "s" in info && info["s"].JInt?
    && "u" in info && info["u"].JInt?
  }

  /** The window after the 16-byte "RTP header" read at `pos`, and the
      timestamp it holds at bytes 4-7. */
  function RtpWindow(file: seq<byte>, pos: nat, w: seq<byte>): (r: seq<byte>)
    requires |w| == WindowSize
    ensures |r| == WindowSize
  {
    Overlay(w, Read(file, pos, RtpRead))
  }

  /** One iteration of pass 1 (lines 1950-2093). A record needs 8 header
      bytes starting with 'M'. A legacy 'E' record of length 5 before any
      header is the old header and must declare 'v' or 'a'; other 'E'
      records shorter than 12 are skipped. A 'J' record before any header is
      the info header; it is decoded and checked, and then, as for every
      other record, 16 bytes are read as an RTP header and its timestamp
      observed. After the info header those 16 bytes are the ones past its
      payload. */
  function Step1(file: seq<byte>, decode: Decoder, cur: Cursor): (r: Step)
    requires CursorOk(cur) && cur.offset < |file|
    ensures (r.Skip? || r.Media?) ==> CursorOk(r.next) && r.next.offset >= cur.offset + 10
  {
    var magic := Read(file, cur.offset, 8);
    if |magic| != 8 || magic[0] != MagicM then Reject
    else
      var w := Overlay(cur.window, magic);
      var len := ReadLength(file, cur.offset + 8, cur.len);
      var body := cur.offset + 10;
      if magic[1] == TypeLegacy then
        if len == 5 && !cur.parsed then
          var w1 := Overlay(w, Read(file, body, 5));
          if w1[0] == KindVideo || w1[0] == KindAudio then Skip(Cursor(body + len, true, len, w1))
          else Reject
        else if len < MinRtp then Skip(Cursor(body + len, cur.parsed, len, w))
        else
          var w1 := RtpWindow(file, body, w);
          Media(Be32(w1, 4), Cursor(body + len, cur.parsed, len, w1))
      else if magic[1] == TypeInfo then
        if len > 0 && !cur.parsed then
          if len >= PrebufferSize then Overrun
          else
            var data := Read(file, body, len);
            match decode(InfoText(w, data, len))
            case None => Reject
            case Some(info) =>
              if !InfoComplete(info) then Reject
              else
                var w1 := RtpWindow(file, body + len, AfterInfo(w, data, len));
                Media(Be32(w1, 4), Cursor(body + len, true, len, w1))
        else
          var w1 := RtpWindow(file, body, w);
          Media(Be32(w1, 4), Cursor(body + len, cur.parsed, len, w1))
      else Reject
  }

  /** One record of pass 1. */
  lemma Scan1Unfold(file: seq<byte>, decode: Decoder, cur: Cursor)
    requires CursorOk(cur) && cur.offset < |file|
    ensures var step := Step1(file, decode, cur);
      Scan1(file, decode, cur) ==
        if step.Reject? then Rejected
        else if step.Overrun? then Overran
        else if step.Skip? then Scan1(file, decode, step.next)
        else Resume([step.ts], Scan1(file, decode, step.next))
  {
  }

  /** The pass 1 outcome from the start after one more record. */
  lemma Scan1Advance(file: seq<byte>, decode: Decoder, cur: Cursor, stamps: seq<nat>)
    requires CursorOk(cur) && cur.offset < |file|
    requires Scan1(file, decode, Start) == Resume(stamps, Scan1(file, decode, cur))
    ensures var step := Step1(file, decode, cur);
      && (step.Reject? ==> Scan1(file, decode, Start) == Rejected)
      && (step.Overrun? ==> Scan1(file, decode, Start) == Overran)
      && (step.Skip? ==> Scan1(file, decode, Start) == Resume(stamps, Scan1(file, decode, step.next)))
      && (step.Media? ==> Scan1(file, decode, Start) == Resume(stamps + [step.ts], Scan1(file, decode, step.next)))
  {
    Scan1Unfold(file, decode, cur);
    var step := Step1(file, decode, cur);
    if step.Media? {
      ResumeAppend(stamps, [step.ts], Scan1(file, decode, step.next));
    }
  }

  /** The outcome of pass 1: the file is rejected, overruns `prebuffer`, or
      is walked to its end, observing `stamps`. */
  datatype Walk = Rejected | Overran | Walked(stamps: seq<nat>, end: Cursor)

  function Scan1(file: seq<byte>, decode: Decoder, cur: Cursor): (r: Walk)
    requires CursorOk(cur)
    ensures r.Walked? ==> CursorOk(r.end)
    decreases |file| - cur.offset
  {
    if cur.offset >= |file| then Walked([], cur)
    else
      match Step1(file, decode, cur)
      case Reject => Rejected
      case Overrun => Overran
      case Skip(next) => Scan1(file, decode, next)
      case Media(ts, next) =>
        var rest := Scan1(file, decode, next);
        if rest.Walked? then Walked([ts] + rest.stamps, rest.end) else rest
  }

  /** The loop variables of pass 2: offset, stale `len`, `prebuffer`'s front. */
  datatype Cursor2 = Cursor2(offset: nat, len: nat, window: seq<byte>)

  predicate Cursor2Ok(c: Cursor2)
  {
    c.len < 0x1_0000 && |c.window| == WindowSize
  }

  /** The packets pass 2 creates from the cursor on, in file order
      (lines 2096-2145): one per record that is not 'J' and is at least 12
      bytes long, its sequence number and timestamp read from its first
      bytes, its length and the offset of its payload. */
  function Scan2(file: seq<byte>, clock: Clock, cur: Cursor2): (r: seq<Packet>)
    requires Cursor2Ok(cur)
    decreases |file| - cur.offset
  {
    if cur.offset >= |file| then []
    else
      var next := Next2(file, cur);
      if !IsMedia2(file, cur) then Scan2(file, clock, next)
      else [Packet2(file, clock, cur)] + Scan2(file, clock, next)
  }

  /** The window after the 8 magic bytes of the record at `cur` were read
      and `prebuffer[8]` cleared. */
  function Header2(file: seq<byte>, cur: Cursor2): (w: seq<byte>)
    requires Cursor2Ok(cur)
    ensures |w| == WindowSize
  {
    Overlay(cur.window, Read(file, cur.offset, 8))[8 := 0]
  }

  /** The cursor after the record at `cur`: past its payload, with the
      record's length and the window after its header (and, for a packet,
      its RTP bytes) were read. The type byte is the window's byte 1. */
  function Next2(file: seq<byte>, cur: Cursor2): (next: Cursor2)
    requires Cursor2Ok(cur)
    ensures Cursor2Ok(next) && next.offset == cur.offset + 10 + next.len
    ensures next.len == ReadLength(file, cur.offset + 8, cur.len)
  {
    var w := Header2(file, cur);
    var len := ReadLength(file, cur.offset + 8, cur.len);
    var body := cur.offset + 10;
    if w[1] == TypeInfo || len < MinRtp then Cursor2(body + len, len, w)
    else Cursor2(body + len, len, RtpWindow(file, body, w))
  }

  /** The packet made from the media record at `cur`. */
  function Packet2(file: seq<byte>, clock: Clock, cur: Cursor2): (p: Packet)
    requires Cursor2Ok(cur)
    ensures p.offset == cur.offset + 10 && p.len == Next2(file, cur).len && p.seqNo < 0x1_0000
    ensures p.offset + 8 <= |file| ==>
      p.seqNo == Be16(file[p.offset + 2], file[p.offset + 3]) && p.ts == ExtTs(clock, Be32(file, p.offset + 4))
  {
    var body := cur.offset + 10;
    var w1 := RtpWindow(file, body, Header2(file, cur));
    RtpFields(file, body, Header2(file, cur));
    Packet(Be16(w1[2], w1[3]), ExtTs(clock, Be32(w1, 4)), ReadLength(file, cur.offset + 8, cur.len), body)
  }

  /** Every packet pass 2 creates is an RTP-sized record and lies past the
      cursor it started from. */
  lemma {:induction false} Scan2Bounds(file: seq<byte>, clock: Clock, cur: Cursor2)
    requires Cursor2Ok(cur)
    ensures forall p :: p in Scan2(file, clock, cur) ==>
      p.len >= MinRtp && p.seqNo < 0x1_0000 && p.offset >= cur.offset + 10
    decreases |file| - cur.offset
  {
    if cur.offset < |file| {
      Scan2Bounds(file, clock, Next2(file, cur));
    }
  }

  /** Whether the record at `cur` becomes a packet in pass 2. */
  predicate IsMedia2(file: seq<byte>, cur: Cursor2)
    requires Cursor2Ok(cur)
  {
    Header2(file, cur)[1] != TypeInfo && Next2(file, cur).len >= MinRtp
  }

  lemma Scan2Advance(file: seq<byte>, clock: Clock, cur: Cursor2, start: Cursor2, packets: seq<Packet>)
    requires Cursor2Ok(cur) && Cursor2Ok(start) && cur.offset < |file|
    requires packets + Scan2(file, clock, cur) == Scan2(file, clock, start)
    ensures IsMedia2(file, cur) ==>
      (packets + [Packet2(file, clock, cur)]) + Scan2(file, clock, Next2(file, cur)) == Scan2(file, clock, start)
    ensures !IsMedia2(file, cur) ==> packets + Scan2(file, clock, Next2(file, cur)) == Scan2(file, clock, start)
  {
    Scan2Unfold(file, clock, cur);
    if IsMedia2(file, cur) {
      assert (packets + [Packet2(file, clock, cur)]) + Scan2(file, clock, Next2(file, cur))
          == packets + ([Packet2(file, clock, cur)] + Scan2(file, clock, Next2(file, cur)));
    }
  }

  /** One record of pass 2. */
  lemma Scan2Unfold(file: seq<byte>, clock: Clock, cur: Cursor2)
    requires Cursor2Ok(cur) && cur.offset < |file|
    ensures Scan2(file, clock, cur) ==
      if !IsMedia2(file, cur) then Scan2(file, clock, Next2(file, cur))
      else [Packet2(file, clock, cur)] + Scan2(file, clock, Next2(file, cur))
  {
  }

  /** Every packet carries the sequence number and extended timestamp of the
      RTP header stored at its offset, whenever the file holds those bytes. */
  lemma {:induction false} Scan2Fields(file: seq<byte>, clock: Clock, cur: Cursor2)
    requires Cursor2Ok(cur)
    ensures forall p :: p in Scan2(file, clock, cur) && p.offset + 8 <= |file| ==>
      p.seqNo == Be16(file[p.offset + 2], file[p.offset + 3]) && p.ts == ExtTs(clock, Be32(file, p.offset + 4))
    decreases |file| - cur.offset
  {
    if cur.offset < |file| {
      Scan2Fields(file, clock, Next2(file, cur));
    }
  }

  /** When the file holds the first 8 payload bytes, the window after the
      RTP read shows them. */
  lemma RtpFields(file: seq<byte>, pos: nat, w: seq<byte>)
    requires |w| == WindowSize
    ensures pos + 8 <= |file| ==>
      var r := RtpWindow(file, pos, w);
      forall i :: 0 <= i < 8 ==> r[i] == file[pos + i]
  {
  }

  /** Whether pass 1 stays inside `prebuffer`: an info header of 1500 bytes
      or more would be written past it. */
  predicate Indexable(file: seq<byte>, decode: Decoder)
  {
    !Scan1(file, decode, Start).Overran?
  }

  /** The list `get_frames` returns: none when pass 1 rejects the file or
      pass 2 finds no packet, otherwise the packets in insertion order. */
  function Frames(file: seq<byte>, decode: Decoder): (r: Option<seq<Packet>>)
    requires Indexable(file, decode)
  {
    match Scan1(file, decode, Start)
    case Walked(stamps, end) =>
      var ps := Scan2(file, ObserveAll(Unset, stamps), Cursor2(0, end.len, end.window));
      if ps == [] then None else Some(Build(ps))
    case _ => None
  }

  /** Every list `get_frames` returns is non-empty, non-decreasing in
      timestamp, and holds exactly one packet per media record of the file. */
  lemma FramesSortedPermutation(file: seq<byte>, decode: Decoder)
    requires Indexable(file, decode) && Frames(file, decode).Some?
    ensures var w := Scan1(file, decode, Start);
      && w.Walked?
      && var ps := Scan2(file, ObserveAll(Unset, w.stamps), Cursor2(0, w.end.len, w.end.window));
      && Frames(file, decode).value != []
      && SortedByTs(Frames(file, decode).value)
      && multiset(Frames(file, decode).value) == multiset(ps)
  {
    var w := Scan1(file, decode, Start);
    var ps := Scan2(file, ObserveAll(Unset, w.stamps), Cursor2(0, w.end.len, w.end.window));
    BuildSorted(ps);
    BuildPermutation(ps);
  }

  // ------------------------------------------------ the linked list itself

  /** The packets of `nodes` in the order `order` lists them. */
  function Gather(nodes: seq<Packet>, order: seq<nat>): (r: seq<Packet>)
    requires forall i :: 0 <= i < |order| ==> order[i] < |nodes|
    ensures |r| == |order| && forall i :: 0 <= i < |order| ==> r[i] == nodes[order[i]]
  {
    seq(|order|, i requires 0 <= i < |order| => nodes[order[i]])
  }

  /** Gathering after a splice is inserting into the gathered sequence. */
  lemma GatherSpliced(nodes: seq<Packet>, order: seq<nat>, k: nat, p: Packet)
    requires k <= |order| && forall i :: 0 <= i < |order| ==> order[i] < |nodes|
    ensures Gather(nodes + [p], Spliced(order, k, |nodes|))
         == Gather(nodes, order)[..k] + [p] + Gather(nodes, order)[k..]
  {
    var o := Spliced(order, k, |nodes|);
    var g := Gather(nodes, order);
    var r := Gather(nodes + [p], o);
    forall i | 0 <= i < |r|
      ensures r[i] == (g[..k] + [p] + g[k..])[i]
    {
      if i < k {
        assert o[i] == order[i];
      } else if i > k {
        assert o[i] == order[i - 1];
      }
    }
  }

  /** `n` nodes linked into one chain in the order `order` (with inverse
      `pos`): `next` and `prev` give each node's neighbours, -1 at the ends,
      and `head` and `tail` are the ends (-1 when empty). */
  ghost predicate Chain(n: nat, next: seq<int>, prev: seq<int>, head: int, tail: int,
                        order: seq<nat>, pos: seq<nat>)
  {
    && |next| == n && |prev| == n && Inverse(n, order, pos)
    && head == (if n == 0 then -1 else order[0] as int)
    && tail == (if n == 0 then -1 else order[n - 1] as int)
    && Forward(n, next, order)
    && Backward(n, prev, order)
  }

  /** Each node's `next` is the node after it in `order`, -1 for the last. */
  ghost predicate Forward(n: nat, next: seq<int>, order: seq<nat>)
    requires |order| == n && forall i :: 0 <= i < n ==> order[i] < |next|
  {
    forall i {:trigger next[order[i]]} :: 0 <= i < n ==> next[order[i]] == if i + 1 < n then order[i + 1] as int else -1
  }

  /** Each node's `prev` is the node before it in `order`, -1 for the first. */
  ghost predicate Backward(n: nat, prev: seq<int>, order: seq<nat>)
    requires |order| == n && forall i :: 0 <= i < n ==> order[i] < |prev|
  {
    forall i {:trigger prev[order[i]]} :: 0 <= i < n ==> prev[order[i]] == if i > 0 then order[i - 1] as int else -1
  }

  /** `order` with node `id` placed at position `k`. */
  function Spliced(order: seq<nat>, k: nat, id: nat): (r: seq<nat>)
    requires k <= |order|
    ensures |r| == |order| + 1
  {
    order[..k] + [id] + order[k..]
  }

  /** The inverse of `Spliced(order, k, |pos|)` given the inverse `pos` of `order`. */
  function Shifted(pos: seq<nat>, k: nat): (r: seq<nat>)
    ensures |r| == |pos| + 1
  {
    seq(|pos| + 1, x requires 0 <= x <= |pos| =>
      if x == |pos| then k else if pos[x] >= k then pos[x] + 1 else pos[x])
  }

  /** `order` and `pos` are inverse permutations of the `n` node numbers. */
  ghost predicate Inverse(n: nat, order: seq<nat>, pos: seq<nat>)
  {
    && |order| == n && |pos| == n
    && (forall i :: 0 <= i < n ==> order[i] < n && pos[order[i]] == i)
    && (forall x :: 0 <= x < n ==> pos[x] < n && order[pos[x]] == x)
  }

  lemma SplicedInverse(n: nat, order: seq<nat>, pos: seq<nat>, k: nat)
    requires Inverse(n, order, pos) && k <= n
    ensures Inverse(n + 1, Spliced(order, k, n), Shifted(pos, k))
  {
    var o := Spliced(order, k, n);
    var q := Shifted(pos, k);
    forall i | 0 <= i < n + 1
      ensures o[i] < n + 1 && q[o[i]] == i
    {
      if i < k {
        assert o[i] == order[i];
      } else if i > k {
        assert o[i] == order[i - 1];
      }
    }
    forall x | 0 <= x < n + 1
      ensures q[x] < n + 1 && o[q[x]] == x
    {
      if x < n && pos[x] < k {
        assert o[pos[x]] == order[pos[x]];
      } else if x < n {
        assert o[pos[x] + 1] == order[pos[x]];
      }
    }
  }

  /** One forward link after the new node `n` was spliced in at position `k`. */
  lemma SplicedNextAt(n: nat, next: seq<int>, order: seq<nat>, pos: seq<nat>, k: nat, next': seq<int>, o: seq<nat>, i: nat)
    requires Inverse(n, order, pos) && k <= n && |next| == n
    requires Forward(n, next, order)
    requires |next'| == n + 1
    requires next'[n] == if k < n then order[k] as int else -1
    requires k > 0 ==> next'[order[k - 1]] == n
    requires forall x :: 0 <= x < n && (k == 0 || x != order[k - 1]) ==> next'[x] == next[x]
    requires i < n + 1
    requires o == Spliced(order, k, n)
    ensures next'[o[i]] == if i + 1 < n + 1 then o[i + 1] as int else -1
  {
    if i + 1 < k {
      assert o[i] == order[i] && o[i + 1] == order[i + 1];
      assert o[i] != order[k - 1] by { assert pos[order[i]] == i; }
    } else if i + 1 == k {
      assert o[i] == order[k - 1] && o[i + 1] == n;
    } else if i == k {
      assert o[i] == n;
      assert k < n ==> o[i + 1] == order[k];
    } else {
      assert o[i] == order[i - 1];
      assert i + 1 < n + 1 ==> o[i + 1] == order[i];
      assert k == 0 || o[i] != order[k - 1] by { assert pos[order[i - 1]] == i - 1; }
    }
  }

  /** Forward links after the new node `n` was spliced in at position `k`. */
  lemma SplicedNext(n: nat, next: seq<int>, order: seq<nat>, pos: seq<nat>, k: nat, next': seq<int>, o: seq<nat>)
    requires Inverse(n, order, pos) && k <= n && |next| == n
    requires Forward(n, next, order)
    requires |next'| == n + 1
    requires next'[n] == if k < n then order[k] as int else -1
    requires k > 0 ==> next'[order[k - 1]] == n
    requires forall x :: 0 <= x < n && (k == 0 || x != order[k - 1]) ==> next'[x] == next[x]
    requires o == Spliced(order, k, n) && Inverse(n + 1, o, Shifted(pos, k))
    ensures Forward(n + 1, next', o)
  {
    forall i | 0 <= i < n + 1
      ensures next'[o[i]] == if i + 1 < n + 1 then o[i + 1] as int else -1
    {
      SplicedNextAt(n, next, order, pos, k, next', o, i);
    }
  }

  /** One backward link after the new node `n` was spliced in at position `k`. */
  lemma SplicedPrevAt(n: nat, prev: seq<int>, order: seq<nat>, pos: seq<nat>, k: nat, prev': seq<int>, o: seq<nat>, i: nat)
    requires Inverse(n, order, pos) && k <= n && |prev| == n
    requires Backward(n, prev, order)
    requires |prev'| == n + 1
    requires prev'[n] == if k > 0 then order[k - 1] as int else -1
    requires k < n ==> prev'[order[k]] == n
    requires forall x :: 0 <= x < n && (k == n || x != order[k]) ==> prev'[x] == prev[x]
    requires i < n + 1
    requires o == Spliced(order, k, n)
    ensures prev'[o[i]] == if i > 0 then o[i - 1] as int else -1
  {
    if i < k {
      assert o[i] == order[i];
      assert i > 0 ==> o[i - 1] == order[i - 1];
      assert k == n || o[i] != order[k] by { assert pos[order[i]] == i; }
    } else if i == k {
      assert o[i] == n;
      assert k > 0 ==> o[i - 1] == order[k - 1];
    } else if i == k + 1 {
      assert o[i] == order[k] && o[i - 1] == n;
    } else {
      assert o[i] == order[i - 1] && o[i - 1] == order[i - 2];
      assert o[i] != order[k] by { assert pos[order[i - 1]] == i - 1; }
    }
  }

  /** Backward links after the new node `n` was spliced in at position `k`. */
  lemma SplicedPrev(n: nat, prev: seq<int>, order: seq<nat>, pos: seq<nat>, k: nat, prev': seq<int>, o: seq<nat>)
    requires Inverse(n, order, pos) && k <= n && |prev| == n
    requires Backward(n, prev, order)
    requires |prev'| == n + 1
    requires prev'[n] == if k > 0 then order[k - 1] as int else -1
    requires k < n ==> prev'[order[k]] == n
    requires forall x :: 0 <= x < n && (k == n || x != order[k]) ==> prev'[x] == prev[x]
    requires o == Spliced(order, k, n) && Inverse(n + 1, o, Shifted(pos, k))
    ensures Backward(n + 1, prev', o)
  {
    forall i | 0 <= i < n + 1
      ensures prev'[o[i]] == if i > 0 then o[i - 1] as int else -1
    {
      SplicedPrevAt(n, prev, order, pos, k, prev', o, i);
    }
  }

  /** Relinking a chain so that a new node `n` sits at position `k`: the
      node before it points forward to it, the node after it back to it, and
      every other link stays. */
  lemma ChainInsert(n: nat, next: seq<int>, prev: seq<int>, head: int, tail: int,
                    order: seq<nat>, pos: seq<nat>, k: nat,
                    next': seq<int>, prev': seq<int>, head': int, tail': int)
    requires Chain(n, next, prev, head, tail, order, pos) && k <= n
    requires |next'| == n + 1 && |prev'| == n + 1
    requires next'[n] == if k < n then order[k] as int else -1
    requires prev'[n] == if k > 0 then order[k - 1] as int else -1
    requires k > 0 ==> next'[order[k - 1]] == n
    requires k < n ==> prev'[order[k]] == n
    requires forall x :: 0 <= x < n && (k == 0 || x != order[k - 1]) ==> next'[x] == next[x]
    requires forall x :: 0 <= x < n && (k == n || x != order[k]) ==> prev'[x] == prev[x]
    requires head' == if k == 0 then n else head
    requires tail' == if k == n then n else tail
    ensures Chain(n + 1, next', prev', head', tail', Spliced(order, k, n), Shifted(pos, k))
  {
    var o := Spliced(order, k, n);
    SplicedInverse(n, order, pos, k);
    SplicedNext(n, next, order, pos, k, next', o);
    SplicedPrev(n, prev, order, pos, k, prev', o);
    assert o[0] == if k == 0 then n else order[0];
    assert o[n] == if k == n then n else order[n - 1];
  }

  /** A new node `n` linked in front of the head. */
  lemma ChainPrepend(n: nat, next: seq<int>, prev: seq<int>, head: int, tail: int,
                     order: seq<nat>, pos: seq<nat>)
    requires Chain(n, next, prev, head, tail, order, pos) && n > 0
    ensures 0 <= head < n
    ensures Chain(n + 1, next + [head], prev[head := n] + [-1], n, tail, Spliced(order, 0, n), Shifted(pos, 0))
  {
    var next', prev' := next + [head], prev[head := n] + [-1];
    forall x | 0 <= x < n && x != order[0]
      ensures prev'[x] == prev[x]
    {
    }
    ChainInsert(n, next, prev, head, tail, order, pos, 0, next', prev', n, tail);
  }

  /** The successor of the node at position `k - 1`. */
  lemma ChainSuccessor(n: nat, next: seq<int>, prev: seq<int>, head: int, tail: int,
                       order: seq<nat>, pos: seq<nat>, k: nat)
    requires Chain(n, next, prev, head, tail, order, pos) && 0 < k <= n
    ensures next[order[k - 1]] == if k < n then order[k] as int else -1
  {
    assert Forward(n, next, order);
  }

  /** A new node `n` linked between node `t` at position `k - 1` and its
      successor. */
  lemma ChainLinkBetween(n: nat, next: seq<int>, prev: seq<int>, head: int, tail: int,
                         order: seq<nat>, pos: seq<nat>, k: nat, t: nat)
    requires Chain(n, next, prev, head, tail, order, pos) && 0 < k < n && t == order[k - 1]
    ensures next[t] == order[k] as int
    ensures Chain(n + 1, next[t := n] + [next[t]], prev[next[t] := n] + [t],
                  head, tail, Spliced(order, k, n), Shifted(pos, k))
  {
    assert pos[t] == k - 1;
    assert next[order[k - 1]] == order[k] as int;
    var after := order[k];
    var next', prev' := next[t := n] + [after], prev[after := n] + [t];
    forall x | 0 <= x < n && x != order[k - 1]
      ensures next'[x] == next[x]
    {
    }
    ChainInsert(n, next, prev, head, tail, order, pos, k, next', prev', head, tail);
  }

  /** A new node `n` linked after the tail `t`. */
  lemma ChainAppend(n: nat, next: seq<int>, prev: seq<int>, head: int, tail: int,
                    order: seq<nat>, pos: seq<nat>, t: nat)
    requires Chain(n, next, prev, head, tail, order, pos) && 0 < n && t == order[n - 1]
    ensures next[t] == -1 && tail == t
    ensures Chain(n + 1, next[t := n] + [-1], prev + [t], head, n, Spliced(order, n, n), Shifted(pos, n))
  {
    assert pos[t] == n - 1;
    ChainSuccessor(n, next, prev, head, tail, order, pos, n);
    var next', prev' := next[t := n] + [-1], prev + [t];
    forall x | 0 <= x < n && x != order[n - 1]
      ensures next'[x] == next[x]
    {
    }
    ChainInsert(n, next, prev, head, tail, order, pos, n, next', prev', head, n);
  }

  /** The doubly linked list of `janus_auviousrecordplay_frame_packet`s that
      `get_frames` builds. Nodes are numbered in allocation order; `next` and
      `prev` hold node numbers, -1 standing for NULL; `head` and `tail` are
      `list` and `last`. The ghost `order` lists the nodes from head to tail
      and `pos` is its inverse. */
  class FrameList {
    var nodes: seq<Packet>
    var next: seq<int>
    var prev: seq<int>
    var head: int
    var tail: int
    ghost var order: seq<nat>
    ghost var pos: seq<nat>

    /** The links form one chain from `head` to `tail` through every node,
        `prev` mirroring `next`. */
    ghost predicate Valid()
      reads this
    {
      |next| == |nodes| && |prev| == |nodes| && Chain(|nodes|, next, prev, head, tail, order, pos)
    }

    /** The packets from head to tail. */
    ghost function Contents(): (s: seq<Packet>)
      reads this
      requires Valid()
      ensures |s| == |nodes|
    {
      Gather(nodes, order)
    }

    /** Where node `x` sits and who its neighbours are: `next` leads one
        list position on and `prev` one back, each undoing the other, with
        -1 exactly at the tail and at the head. */
    lemma Neighbours(x: nat)
      requires Valid() && x < |nodes|
      ensures pos[x] < |nodes| && Contents()[pos[x]] == nodes[x]
      ensures next[x] == -1 <==> pos[x] + 1 == |nodes|
      ensures next[x] == -1 <==> tail == x
      ensures next[x] != -1 ==> 0 <= next[x] < |nodes| && pos[next[x]] == pos[x] + 1 && prev[next[x]] == x
      ensures prev[x] == -1 <==> pos[x] == 0
      ensures prev[x] == -1 <==> head == x
      ensures prev[x] != -1 ==> 0 <= prev[x] < |nodes| && pos[prev[x]] + 1 == pos[x] && next[prev[x]] == x
    {
      var n, i := |nodes|, pos[x];
      assert order[i] == x;
      assert next[x] == if i + 1 < n then order[i + 1] as int else -1;
      assert prev[x] == if i > 0 then order[i - 1] as int else -1;
      assert pos[order[n - 1]] == n - 1 && pos[order[0]] == 0;
      if i + 1 < n {
        assert pos[order[i + 1]] == i + 1;
      }
      if i > 0 {
        assert pos[order[i - 1]] == i - 1;
      }
    }

    /** The empty list: `list = last = NULL`. */
    constructor ()
      ensures Valid() && nodes == [] && Contents() == []
    {
      nodes := [];
      next := [];
      prev := [];
      head := -1;
      tail := -1;
      order := [];
      pos := [];
    }

    /** Insert one more packet (lines 2147-2211). Into the empty list it
        goes as the only node; otherwise it is linked after the node the
        backward scan stops at, or made the new head when the scan falls off
        the front. */
    method Insert(p: Packet)
      requires Valid()
      modifies this
      ensures Valid()
      ensures nodes == old(nodes) + [p]
      ensures Contents() == Inserted(old(Contents()), p)
    {
      if head == -1 {
        nodes := [p];
        next := [-1];
        prev := [-1];
        head := 0;
        tail := 0;
        order := [0];
        pos := [0];
        return;
      }
      var t, k := Scan(p);
      ghost var (nodes0, order0) := (nodes, order);
      Link(t, k, p);
      GatherSpliced(nodes0, order0, k, p);
    }

    /** The backward scan from the tail (lines 2155-2198): the node `t` the
        new packet goes after, -1 when it goes before every node, and its
        position `k` in the list, which is where `InsertAt` puts the packet. */
    method Scan(p: Packet) returns (t: int, ghost k: nat)
      requires Valid()
      ensures k == InsertAt(Contents(), p)
      ensures k <= |order| && t == if k == 0 then -1 else order[k - 1] as int
    {
      ghost var s := Contents();
      t := tail;
      k := |order|;
      while t != -1 && !GoesAfter(nodes[t], p)
        invariant Valid() && s == Contents()
        invariant 0 <= k <= |order|
        invariant t == if k == 0 then -1 else order[k - 1] as int
        invariant forall j :: k <= j < |order| ==> !GoesAfter(s[j], p)
        decreases k
      {
        assert Backward(|nodes|, prev, order);
        assert prev[order[k - 1]] == if k > 1 then order[k - 2] as int else -1;
        assert s[k - 1] == nodes[t];
        t := prev[t];
        k := k - 1;
      }
      assert k > 0 ==> s[k - 1] == nodes[t];
      InsertAtUnique(s, p, k);
    }

    /** Link a new node holding `p` after node `t` (at the head when `t` is
        -1), at list position `k`. */
    method Link(t: int, ghost k: nat, p: Packet)
      requires Valid() && nodes != []
      requires k <= |order| && t == if k == 0 then -1 else order[k - 1] as int
      modifies this
      ensures Valid()
      ensures nodes == old(nodes) + [p]
      ensures order == Spliced(old(order), k, |old(nodes)|)
    {
      if t == -1 {
        Prepend(p);
      } else {
        ChainSuccessor(|nodes|, next, prev, head, tail, order, pos, k);
        if next[t] != -1 {
          LinkBetween(t, k, p);
        } else {
          Append(t, p);
        }
      }
    }

    /** The scan fell off the front: the new node becomes the head
        (lines 2203-2208). */
    method Prepend(p: Packet)
      requires Valid() && nodes != []
      modifies this
      ensures Valid()
      ensures nodes == old(nodes) + [p]
      ensures order == Spliced(old(order), 0, |old(nodes)|)
    {
      var id := |nodes|;
      ChainPrepend(id, next, prev, head, tail, order, pos);
      nodes, next, prev, head := nodes + [p], next + [head], prev[head := id] + [-1], id;
      order, pos := Spliced(order, 0, id), Shifted(pos, 0);
    }

    /** The new node goes between node `t`, at position `k - 1`, and its
        successor (lines 2158-2167; the same code is at 2174-2183 and 2188-2197). */
    method LinkBetween(t: int, ghost k: nat, p: Packet)
      requires Valid() && 0 < k < |order| && t == order[k - 1] as int
      modifies this
      ensures Valid()
      ensures nodes == old(nodes) + [p]
      ensures order == Spliced(old(order), k, |old(nodes)|)
    {
      var id := |nodes|;
      ChainLinkBetween(id, next, prev, head, tail, order, pos, k, t);
      var after := next[t];
      nodes, next, prev := nodes + [p], next[t := id] + [after], prev[after := id] + [t];
      order, pos := Spliced(order, k, id), Shifted(pos, k);
    }

    /** The new node goes after the tail `t` and becomes `last`
        (lines 2162-2167). */
    method Append(t: int, p: Packet)
      requires Valid() && nodes != [] && t == order[|order| - 1] as int
      modifies this
      ensures Valid()
      ensures nodes == old(nodes) + [p]
      ensures order == Spliced(old(order), |old(order)|, |old(nodes)|)
    {
      var id := |nodes|;
      ChainAppend(id, next, prev, head, tail, order, pos, t);
      nodes, next, prev, tail := nodes + [p], next[t := id] + [-1], prev + [t], id;
      order, pos := Spliced(order, id, id), Shifted(pos, id);
    }
  }

  /** The pass 1 outcome from the start, given the timestamps already
      observed and the outcome from the current record on. */
  function Resume(stamps: seq<nat>, rest: Walk): Walk
  {
    if rest.Walked? then Walked(stamps + rest.stamps, rest.end) else rest
  }

  /** The first loop of `get_frames` (lines 1948-2093): walk the records,
      validating them, and observe the timestamps. `valid` is false when a
      record is rejected; otherwise `clock` holds the observed `first_ts`,
      `last_ts` and `reset` and `end` the loop variables left behind. */
  method Prescan(file: seq<byte>, decode: Decoder) returns (valid: bool, clock: Clock, end: Cursor)
    requires Indexable(file, decode)
    ensures valid <==> Scan1(file, decode, Start).Walked?
    ensures valid ==> && end == Scan1(file, decode, Start).end
                      && clock == ObserveAll(Unset, Scan1(file, decode, Start).stamps)
  {
    var cur := Start;
    clock := Unset;
    ghost var stamps: seq<nat> := [];
    ResumeNothing(Scan1(file, decode, Start));
    while cur.offset < |file|
      invariant CursorOk(cur)
      invariant clock == ObserveAll(Unset, stamps)
      invariant Scan1(file, decode, Start) == Resume(stamps, Scan1(file, decode, cur))
      decreases |file| - cur.offset
    {
      var rejected;
      rejected, clock, cur, stamps := PrescanRecord(file, decode, cur, clock, stamps);
      if rejected {
        return false, clock, cur;
      }
    }
    Scan1Ended(file, decode, cur, stamps);
    return true, clock, cur;
  }

  /** The body of the first loop of `get_frames`: one record is validated
      and, when it carries a timestamp, observed. */
  method PrescanRecord(file: seq<byte>, decode: Decoder, cur: Cursor, clock: Clock, ghost stamps: seq<nat>)
    returns (rejected: bool, clock': Clock, cur': Cursor, ghost stamps': seq<nat>)
    requires Indexable(file, decode) && CursorOk(cur) && cur.offset < |file|
    requires clock == ObserveAll(Unset, stamps)
    requires Scan1(file, decode, Start) == Resume(stamps, Scan1(file, decode, cur))
    ensures rejected ==> Scan1(file, decode, Start) == Rejected
    ensures !rejected ==> && CursorOk(cur') && cur'.offset > cur.offset
                          && clock' == ObserveAll(Unset, stamps')
                          && Scan1(file, decode, Start) == Resume(stamps', Scan1(file, decode, cur'))
  {
    var step := Step1(file, decode, cur);
    Scan1Advance(file, decode, cur, stamps);
    if step.Reject? {
      return true, clock, cur, stamps;
    }
    if step.Overrun? {
      assert false;
    }
    rejected, clock', cur', stamps' := false, clock, step.next, stamps;
    if step.Media? {
      ObserveAllSnoc(stamps, step.ts);
      clock' := Observe(clock, step.ts);
      stamps' := stamps + [step.ts];
    }
  }

  /** The second loop of `get_frames` (lines 2096-2214): create a packet for
      every media record and insert it into the list; no packet at all
      leaves `list` null. */
  method Collect(file: seq<byte>, clock: Clock, start: Cursor2) returns (list: FrameList?)
    requires Cursor2Ok(start)
    ensures list == null <==> Scan2(file, clock, start) == []
    ensures list != null ==> fresh(list) && list.Valid() && list.Contents() == Build(Scan2(file, clock, start))
  {
    var cur := start;
    ghost var packets: seq<Packet> := [];
    var frames := new FrameList();
    while cur.offset < |file|
      invariant Cursor2Ok(cur)
      invariant packets + Scan2(file, clock, cur) == Scan2(file, clock, start)
      invariant fresh(frames) && frames.Valid() && frames.Contents() == Build(packets)
      decreases |file| - cur.offset
    {
      Scan2Advance(file, clock, cur, start, packets);
      var next := Next2(file, cur);
      if IsMedia2(file, cur) {
        var p := Packet2(file, clock, cur);
        frames.Insert(p);
        assert (packets + [p])[..|packets|] == packets;
        packets := packets + [p];
      }
      cur := next;
    }
    assert Scan2(file, clock, cur) == [];
    assert packets == packets + Scan2(file, clock, cur);
    list := if frames.head == -1 then null else frames;
  }

  lemma ResumeNothing(w: Walk)
    ensures Resume([], w) == w
  {
    if w.Walked? {
      assert [] + w.stamps == w.stamps;
    }
  }

  /** Pass 1 reaching the end of the file has observed exactly `stamps`. */
  lemma Scan1Ended(file: seq<byte>, decode: Decoder, cur: Cursor, stamps: seq<nat>)
    requires CursorOk(cur) && cur.offset >= |file|
    requires Scan1(file, decode, Start) == Resume(stamps, Scan1(file, decode, cur))
    ensures Scan1(file, decode, Start) == Walked(stamps, cur)
  {
    assert stamps + [] == stamps;
  }

  lemma ResumeAppend(a: seq<nat>, b: seq<nat>, w: Walk)
    ensures Resume(a, Resume(b, w)) == Resume(a + b, w)
  {
    if w.Walked? {
      assert a + (b + w.stamps) == (a + b) + w.stamps;
    }
  }

  /** `janus_auviousrecordplay_get_frames(dir, filename)` (lines 1921-2229):
      the recording file is opened, walked once to validate it and observe
      its timestamps, then walked again to build the list. The result is
      null when the file is missing, rejected, or holds no packet; otherwise
      it is a fresh list holding exactly the packets of `Frames`, in order. */
  method GetFrames(fs: map<string, seq<byte>>, dir: string, filename: string, decode: Decoder)
    returns (list: FrameList?)
    requires MjrPath(dir, filename) in fs ==> Indexable(fs[MjrPath(dir, filename)], decode)
    ensures MjrPath(dir, filename) !in fs ==> list == null
    ensures MjrPath(dir, filename) in fs ==>
      var frames := Frames(fs[MjrPath(dir, filename)], decode);
      && (list == null <==> frames.None?)
      && (list != null ==> fresh(list) && list.Valid() && list.Contents() == frames.value)
  {
    var path := MjrPath(dir, filename);
    if path !in fs {
      return null;
    }
    var file := fs[path];
    var valid, clock, end := Prescan(file, decode);
    if !valid {
      return null;
    }
    list := Collect(file, clock, Cursor2(0, end.len, end.window));
  }
}
