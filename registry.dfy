/** The recordings table and the per-handle sessions: creating a recording
    (a requested id, or random ids drawn until one is free), removing it,
    listing the completed ones, looking one up for playout, the viewers list,
    destroy-once flags, the first-caller-only hangup, and the RTCP feedback
    timers of a recording session. Reference counts are kept as plain
    counters: the sequential meaning of `janus_refcount_increase/decrease`. */
module Registry {
  import opened Bytes
  import opened Container
  import opened FrameIndex
  import opened Requests

  // ------------------------------------------------------------ recordings

  /** `janus_auviousrecordplay_recording` (lines 371-388). */
  class Recording {
    const id: nat
    const name: string
    const acodec: Option<string>
    const vcodec: Option<string>
    const audioPt: nat
    const videoPt: nat
    /** The base names of the track files, present for the media the
        recording holds. */
    const arcFile: Option<string>
    const vrcFile: Option<string>
    var offer: Option<string>
    var viewers: seq<Session>
    var completed: bool
    var destroyed: bool
    var refs: int

    /** A new recording as the record request builds it (lines 1370-1433):
        not completed, not destroyed, no viewers and no offer yet, one
        reference for the table and one for the session writing it; the
        payload types follow the codecs and each present track gets its
        file name. */
    constructor (id: nat, name: string, acodec: Option<string>, vcodec: Option<string>,
                 filename: Option<string>)
      ensures this.id == id && this.name == name && this.acodec == acodec && this.vcodec == vcodec
      ensures audioPt == AudioPayloadType(acodec) && videoPt == VideoPt
      ensures arcFile == (if acodec.Some? then Some(TrackFileName(filename, id, false)) else None)
      ensures vrcFile == (if vcodec.Some? then Some(TrackFileName(filename, id, true)) else None)
      ensures offer.None? && viewers == [] && !completed && !destroyed && refs == 2
    {
      this.id := id;
      this.name := name;
      this.acodec := acodec;
      this.vcodec := vcodec;
      audioPt := AudioPayloadType(acodec);
      videoPt := VideoPt;
      arcFile := if acodec.Some? then Some(TrackFileName(filename, id, false)) else None;
      vrcFile := if vcodec.Some? then Some(TrackFileName(filename, id, true)) else None;
      offer := None;
      viewers := [];
      completed := false;
      destroyed := false;
      refs := 2;
    }

    /** `janus_auviousrecordplay_recording_destroy` (lines 434-437): the
        first call marks the recording destroyed and drops the table's
        reference; later calls change nothing. */
    method Destroy()
      modifies this`destroyed, this`refs
      ensures destroyed
      ensures refs == if old(destroyed) then old(refs) else old(refs) - 1
    {
      if !destroyed {
        destroyed := true;
        refs := refs - 1;
      }
    }

    /** `g_list_remove(rec->viewers, session)` (line 2491). */
    method RemoveViewer(s: Session)
      modifies this`viewers
      ensures viewers == RemoveFirst(old(viewers), s)
    {
      viewers := RemoveFirst(viewers, s);
    }
  }

  /** What `g_list_remove` leaves: the list without the first occurrence of `x`. */
  function RemoveFirst<T(==)>(xs: seq<T>, x: T): seq<T>
  {
    if xs == [] then []
    else if xs[0] == x then xs[1..]
    else [xs[0]] + RemoveFirst(xs[1..], x)
  }

  /** Removing drops exactly one occurrence, and nothing when there is none. */
  lemma {:induction false} RemoveFirstCounts<T>(xs: seq<T>, x: T)
    ensures multiset(RemoveFirst(xs, x)) == multiset(xs) - multiset{x}
    ensures x !in xs ==> RemoveFirst(xs, x) == xs
  {
    if xs != [] {
      assert xs == [xs[0]] + xs[1..];
      if xs[0] != x {
        RemoveFirstCounts(xs[1..], x);
      }
    }
  }

  /** A viewer that joined once and leaves restores the viewers list. */
  lemma {:induction false} RemoveAfterAppend<T>(xs: seq<T>, x: T)
    requires x !in xs
    ensures RemoveFirst(xs + [x], x) == xs
  {
    if xs != [] {
      assert (xs + [x])[1..] == xs[1..] + [x];
      RemoveAfterAppend(xs[1..], x);
    } else {
      assert [] + [x] == [x];
    }
  }

  // -------------------------------------------------------------- sessions

  /** The RTCP feedback timers of a session: ramp-up steps left, the last
      REMB and the last keyframe request (PLI), in microseconds. */
  datatype Feedback = Feedback(startup: nat, rembLast: int, pliLast: int)

  /** What one feedback call sends: maybe a REMB with a bitrate, maybe a PLI. */
  datatype Sent = Sent(remb: Option<nat>, pli: bool)

  const UsecPerSec: nat := 1_000_000
  const RembPeriod: nat := 5 * UsecPerSec

  /** The keyframe interval in microseconds: the millisecond setting cut to
      whole seconds first (line 1088). */
  function PliInterval(intervalMs: nat): (us: nat)
    ensures us % UsecPerSec == 0
    ensures us <= intervalMs * 1000 && intervalMs * 1000 < us + UsecPerSec
  {
    (intervalMs / 1000) * UsecPerSec
  }

  /** One call of `janus_auviousrecordplay_send_rtcp_feedback` for video
      (lines 1070-1096) at monotonic time `now`. */
  function FeedbackStep(f: Feedback, bitrate: nat, intervalMs: nat, now: int): (Feedback, Sent)
  {
    var rampup := f.startup > 0;
    var remb := rampup || now - f.rembLast >= RembPeriod;
    var rate := if rampup then bitrate / f.startup else bitrate;
    var pli := now - f.pliLast >= PliInterval(intervalMs);
    (Feedback(if rampup then f.startup - 1 else 0, if remb then now else f.rembLast,
              if pli then now else f.pliLast),
     Sent(if remb then Some(rate) else None, pli))
  }

  /** While ramping up a REMB goes out on every call with the bitrate
      divided by the steps left; afterwards only when five seconds have
      passed since the last one, with the full bitrate. */
  lemma RembPacing(f: Feedback, bitrate: nat, intervalMs: nat, now: int)
    ensures var (g, s) := FeedbackStep(f, bitrate, intervalMs, now);
      && (f.startup > 0 ==> s.remb == Some(bitrate / f.startup) && g.startup == f.startup - 1)
      && (f.startup == 0 ==> g.startup == 0 && (s.remb.Some? <==> now >= f.rembLast + 5 * UsecPerSec))
      && (f.startup == 0 && s.remb.Some? ==> s.remb.value == bitrate)
      && g.rembLast == (if s.remb.Some? then now else f.rembLast)
  { }

  /** A PLI goes out when the interval, in whole seconds, has passed since
      the last one; with an interval under a second it goes out on every
      call. */
  lemma PliPacing(f: Feedback, bitrate: nat, intervalMs: nat, now: int)
    ensures var (g, s) := FeedbackStep(f, bitrate, intervalMs, now);
      && (s.pli <==> now - f.pliLast >= (intervalMs / 1000) * UsecPerSec)
      && g.pliLast == (if s.pli then now else f.pliLast)
      && (intervalMs < 1000 && now >= f.pliLast ==> s.pli)
  { }

  /** What a run of feedback calls sends. */
  function Trace(f: Feedback, bitrate: nat, intervalMs: nat, nows: seq<int>): (r: seq<Sent>)
    ensures |r| == |nows|
    decreases |nows|
  {
    if nows == [] then []
    else
      var (g, s) := FeedbackStep(f, bitrate, intervalMs, nows[0]);
      [s] + Trace(g, bitrate, intervalMs, nows[1..])
  }

  /** The ramp-up: the first `startup` calls send REMBs with the bitrate
      divided by `startup`, `startup - 1`, ..., 1; for a new session,
      a quarter, a third, a half, then all of it. */
  lemma {:induction false} RampUpTrace(f: Feedback, bitrate: nat, intervalMs: nat, nows: seq<int>)
    requires |nows| >= f.startup
    decreases |nows|
    ensures forall i :: 0 <= i < f.startup ==>
      Trace(f, bitrate, intervalMs, nows)[i].remb == Some(bitrate / (f.startup - i))
  {
    if f.startup > 0 {
      var (g, s) := FeedbackStep(f, bitrate, intervalMs, nows[0]);
      RampUpTrace(g, bitrate, intervalMs, nows[1..]);
      var t := Trace(f, bitrate, intervalMs, nows);
      assert t == [s] + Trace(g, bitrate, intervalMs, nows[1..]);
      forall i | 0 <= i < f.startup
        ensures t[i].remb == Some(bitrate / (f.startup - i))
      {
        if i > 0 {
          assert t[i] == Trace(g, bitrate, intervalMs, nows[1..])[i - 1];
          assert g.startup - (i - 1) == f.startup - i;
        }
      }
    }
  }

  /** Once the ramp-up is over, REMBs are paced: each one comes at least
      five seconds after the previous REMB, so any two REMBs of a run are
      at least five seconds apart, whatever the clock readings. */
  lemma {:induction false} RembSpacing(f: Feedback, bitrate: nat, intervalMs: nat, nows: seq<int>)
    requires f.startup == 0
    decreases |nows|
    ensures var t := Trace(f, bitrate, intervalMs, nows);
      forall i :: 0 <= i < |nows| && t[i].remb.Some? ==> nows[i] >= f.rembLast + RembPeriod
    ensures var t := Trace(f, bitrate, intervalMs, nows);
      forall i, j :: 0 <= i < j < |nows| && t[i].remb.Some? && t[j].remb.Some? ==> nows[j] >= nows[i] + RembPeriod
  {
    if nows != [] {
      var (g, s) := FeedbackStep(f, bitrate, intervalMs, nows[0]);
      RembSpacing(g, bitrate, intervalMs, nows[1..]);
      var t := Trace(f, bitrate, intervalMs, nows);
      var rest := Trace(g, bitrate, intervalMs, nows[1..]);
      assert t == [s] + rest;
      assert s.remb.Some? ==> nows[0] >= f.rembLast + RembPeriod && g.rembLast == nows[0];
      assert s.remb.None? ==> g.rembLast == f.rembLast;
      forall i | 0 < i < |nows|
        ensures t[i] == rest[i - 1] && nows[i] == nows[1..][i - 1]
      {
      }
    }
  }

  /** `janus_auviousrecordplay_session` (lines 389-413), less the SDP
      bookkeeping; `writingAudio`/`writingVideo` stand for the recorders
      `arc`/`vrc` being open. */
  class Session {
    var active: bool
    var recorder: bool
    var recording: Recording?
    var writingAudio: bool
    var writingVideo: bool
    var aframes: FrameList?
    var vframes: FrameList?
    var hangingup: nat
    var destroyed: bool
    var refs: int
    var rembStartup: nat
    var rembLast: int
    var bitrate: nat
    var keyframeInterval: nat
    var keyframeRequestLast: int

    /** `janus_auviousrecordplay_create_session` (lines 793-808): inactive,
        no recording, four REMB ramp-up steps, 1 Mbps, a keyframe every
        15000 ms and none requested yet. */
    constructor (now: int)
      ensures !active && !recorder && recording == null && !writingAudio && !writingVideo
      ensures aframes == null && vframes == null && hangingup == 0 && !destroyed && refs == 1
      ensures rembStartup == 4 && rembLast == now && bitrate == 1024 * 1024
      ensures keyframeInterval == 15000 && keyframeRequestLast == 0
    {
      active := false;
      recorder := false;
      recording := null;
      writingAudio := false;
      writingVideo := false;
      aframes := null;
      vframes := null;
      hangingup := 0;
      destroyed := false;
      refs := 1;
      rembStartup := 4;
      rembLast := now;
      bitrate := 1024 * 1024;
      keyframeRequestLast := 0;
      keyframeInterval := 15000;
    }

    /** The recording the session holds, if any. */
    function Held(): (rs: set<Recording>)
      reads this
      ensures rs == {} <==> recording == null
    {
      if recording == null then {} else {recording}
    }

    function Timers(): Feedback
      reads this
    {
      Feedback(rembStartup, rembLast, keyframeRequestLast)
    }

    /** `janus_auviousrecordplay_session_destroy` (lines 420-423): only the
        first call drops the session's reference. */
    method Destroy()
      modifies this`destroyed, this`refs
      ensures destroyed
      ensures refs == if old(destroyed) then old(refs) else old(refs) - 1
    {
      if !destroyed {
        destroyed := true;
        refs := refs - 1;
      }
    }

    /** The settings a configure request stores (lines 959-968). */
    method Configure(newBitrate: Option<nat>, newInterval: Option<nat>)
      modifies this`bitrate, this`keyframeInterval
      ensures bitrate == if newBitrate.Some? then newBitrate.value else old(bitrate)
      ensures keyframeInterval == if newInterval.Some? then newInterval.value else old(keyframeInterval)
    {
      if newBitrate.Some? {
        bitrate := newBitrate.value;
      }
      if newInterval.Some? {
        keyframeInterval := newInterval.value;
      }
    }

    /** `janus_auviousrecordplay_send_rtcp_feedback` (lines 1061-1096):
        nothing for audio; for video the timers advance as `FeedbackStep`
        says and the REMB and PLI it sends are returned. */
    method SendRtcpFeedback(video: int, now: int) returns (sent: Sent)
      modifies this`rembStartup, this`rembLast, this`keyframeRequestLast
      ensures video != 1 ==> sent == Sent(None, false) && Timers() == old(Timers())
      ensures video == 1 ==>
        (Timers(), sent) == FeedbackStep(old(Timers()), bitrate, keyframeInterval, now)
    {
      if video != 1 {
        return Sent(None, false);
      }
      var elapsed := now - rembLast;
      var rampup := rembStartup > 0;
      var remb: Option<nat> := None;
      if rampup || elapsed >= RembPeriod {
        var rate := bitrate;
        if rampup {
          rate := rate / rembStartup;
          rembStartup := rembStartup - 1;
        }
        remb := Some(rate);
        rembLast := now;
      }
      elapsed := now - keyframeRequestLast;
      var interval := (keyframeInterval / 1000) * UsecPerSec;
      var pli := elapsed >= interval;
      if pli {
        keyframeRequestLast := now;
      }
      sent := Sent(remb, pli);
    }

    /** The outcome of `Watch`, given the fields it started from: each
        track file of the recording is indexed (a missing track keeps the
        old list); 417 exactly when both lists are null, which changes
        nothing else; otherwise 0 and the session is the recording's newest
        viewer, no longer a recorder. */
    ghost predicate Watched(aframes0: FrameList?, vframes0: FrameList?, recording0: Recording?,
                            recorder0: bool, rec: Recording, viewers0: seq<Session>,
                            fs: map<string, seq<byte>>, dir: string, decode: Decoder, code: nat)
      reads this, rec, aframes, vframes
    {
      && (code == 0 || code == ErrInvalidRecording)
      && (rec.arcFile.None? ==> aframes == aframes0)
      && (rec.arcFile.Some? ==> Loads(fs, dir, rec.arcFile.value, decode, aframes))
      && (rec.vrcFile.None? ==> vframes == vframes0)
      && (rec.vrcFile.Some? ==> Loads(fs, dir, rec.vrcFile.value, decode, vframes))
      && (code == ErrInvalidRecording <==> aframes == null && vframes == null)
      && (code == ErrInvalidRecording ==>
            rec.viewers == viewers0 && recording == recording0 && recorder == recorder0)
      && (code == 0 ==> recording == rec && !recorder && rec.viewers == viewers0 + [this])
    }

    /** Opening a recording for playout (lines 1547-1568): its track files
        are indexed and, when at least one yields frames, the session joins
        its viewers. */
    method Watch(rec: Recording, fs: map<string, seq<byte>>, dir: string, decode: Decoder)
      returns (code: nat)
      requires forall p :: p in fs ==> Indexable(fs[p], decode)
      modifies this`aframes, this`vframes, this`recording, this`recorder, rec`viewers
      ensures Watched(old(aframes), old(vframes), old(recording), old(recorder), rec, old(rec.viewers),
                      fs, dir, decode, code)
    {
      if rec.arcFile.Some? {
        aframes := GetFrames(fs, dir, rec.arcFile.value, decode);
      }
      if rec.vrcFile.Some? {
        vframes := GetFrames(fs, dir, rec.vrcFile.value, decode);
      }
      if aframes == null && vframes == null {
        return ErrInvalidRecording;
      }
      recording := rec;
      recorder := false;
      rec.viewers := rec.viewers + [this];
      code := 0;
    }

    /** `janus_auviousrecordplay_setup_media` (lines 1025-1059) and the start
        of the playout thread it launches for a viewer (lines 2238-2295). A
        live session becomes active with its hangup counter reset. For a
        viewer the thread is handed a reference on the session (line 1047)
        and takes one on the recording (line 2244); both are held while the
        playout runs and are given back at once when there is no recording,
        no frame list, or an indexed track file cannot be reopened. */
    method StartPlayout(fs: map<string, seq<byte>>, dir: string) returns (started: bool)
      modifies this`active, this`hangingup, this`refs, Held()`refs
      ensures old(destroyed) ==> !started && active == old(active) && hangingup == old(hangingup)
      ensures !old(destroyed) ==> active && hangingup == 0
      ensures started <==>
        (&& !destroyed && !recorder && recording != null && (aframes != null || vframes != null)
         && (aframes != null ==> Opens(fs, dir, recording.arcFile))
         && (vframes != null ==> Opens(fs, dir, recording.vrcFile)))
      ensures refs == old(refs) + (if started then 1 else 0)
      ensures recording != null ==> recording.refs == old(recording.refs) + (if started then 1 else 0)
    {
      if destroyed {
        return false;
      }
      hangingup := 0;
      active := true;
      if recorder {
        return false;
      }
      refs := refs + 1;
      var rec := recording;
      if rec == null {
        refs := refs - 1;
        return false;
      }
      rec.refs := rec.refs + 1;
      if (aframes == null && vframes == null)
         || (aframes != null && !Opens(fs, dir, rec.arcFile))
         || (vframes != null && !Opens(fs, dir, rec.vrcFile))
      {
        rec.refs := rec.refs - 1;
        refs := refs - 1;
        return false;
      }
      started := true;
    }

    /** The end of `janus_auviousrecordplay_playout_thread` (lines
        2462-2501): the frame lists are dropped, the session leaves the
        recording's viewers, and the references the playout held on the
        recording and on the session are released. */
    method FinishPlayout(rec: Recording)
      modifies this`aframes, this`vframes, this`refs, rec`viewers, rec`refs
      ensures aframes == null && vframes == null
      ensures rec.viewers == RemoveFirst(old(rec.viewers), this)
      ensures rec.refs == old(rec.refs) - 1 && refs == old(refs) - 1
    {
      aframes := null;
      vframes := null;
      rec.RemoveViewer(this);
      rec.refs := rec.refs - 1;
      refs := refs - 1;
    }
  }

  // ---------------------------------------------------------------- table

  /** One line of the list request's answer (lines 935-943). */
  datatype Entry = Entry(id: nat, name: string, audio: bool, acodec: Option<string>,
                         video: bool, vcodec: Option<string>)

  function EntryOf(r: Recording): Entry
  {
    Entry(r.id, r.name, r.arcFile.Some?, r.acodec, r.vrcFile.Some?, r.vcodec)
  }

  /** The `recordings` hash table, keyed by id. */
  class Registry {
    var recordings: map<nat, Recording>

    constructor ()
      ensures recordings == map[]
    {
      recordings := map[];
    }

    /** Every recording is filed under its own id. */
    ghost predicate Valid()
      reads this, recordings.Values
    {
      forall id :: id in recordings ==> recordings[id].id == id
    }

    /** An id the random source may settle on: nonzero and not taken. */
    predicate Free(id: nat)
      reads this
    {
      id != 0 && id !in recordings
    }

    /** The recording filed under `id`, if any. */
    function Filed(id: nat): (rs: set<Recording>)
      reads this
      ensures rs == {} <==> id !in recordings
    {
      if id in recordings then {recordings[id]} else {}
    }

    /** The list request (lines 929-946): the completed recordings only,
        in no particular order. */
    function List(): (entries: set<Entry>)
      reads this, recordings.Values
    {
      set id | id in recordings && recordings[id].completed :: EntryOf(recordings[id])
    }

    /** A recording is listed exactly when it is in the table and completed. */
    lemma ListedExactly(r: Recording)
      requires Valid()
      ensures EntryOf(r) in List() <==>
        (r.id in recordings && EntryOf(recordings[r.id]) == EntryOf(r) && recordings[r.id].completed)
    {
      if EntryOf(r) in List() {
        var id :| id in recordings && recordings[id].completed && EntryOf(recordings[id]) == EntryOf(r);
        assert recordings[id].id == id;
      }
    }

    /** The random-id loop (lines 1357-1365): ids are drawn from `draws`
        until one is nonzero and not taken; the result is the first such
        draw. */
    method DrawId(draws: seq<nat>) returns (id: nat, k: nat)
      requires exists j :: 0 <= j < |draws| && Free(draws[j])
      ensures k < |draws| && id == draws[k] && Free(id)
      ensures forall j :: 0 <= j < k ==> !Free(draws[j])
    {
      var i := 0;
      id := 0;
      while id == 0
        invariant i <= |draws|
        invariant id == 0 ==> forall j :: 0 <= j < i ==> !Free(draws[j])
        invariant id != 0 ==>
          (0 < i && id == draws[i - 1] && Free(id) && forall j :: 0 <= j < i - 1 ==> !Free(draws[j]))
        decreases |draws| - i, if id == 0 then 1 else 0
      {
        id := draws[i];
        i := i + 1;
        if id in recordings {
          id := 0;
        }
      }
      k := i - 1;
    }

    /** A new recording (lines 1344-1438): a requested id already in the
        table fails with 420 and changes nothing; otherwise the requested
        id, or the first free random draw, names a fresh recording that
        joins the table with no other entry changing, and the session
        becomes its recorder. The new recording is not completed, so the
        list does not change. */
    method Create(session: Session, requested: nat, draws: seq<nat>, name: string,
                  filename: Option<string>, acodec: Option<string>, vcodec: Option<string>)
      returns (code: nat, rec: Recording?)
      requires Valid()
      requires requested == 0 ==> exists j :: 0 <= j < |draws| && Free(draws[j])
      modifies this, session`recorder, session`recording, session`writingAudio, session`writingVideo
      ensures Valid()
      ensures code == ErrRecordingExists <==> requested in old(recordings) && requested > 0
      ensures code == ErrRecordingExists ==>
        rec == null && recordings == old(recordings) && unchanged(session)
      ensures code != ErrRecordingExists ==>
        && code == 0 && rec != null && fresh(rec)
        && rec.id !in old(recordings) && rec.id != 0
        && (requested > 0 ==> rec.id == requested)
        && (requested == 0 ==>
              exists k :: (0 <= k < |draws| && rec.id == draws[k]
                && forall j :: 0 <= j < k ==> draws[j] == 0 || draws[j] in old(recordings)))
        && recordings == old(recordings)[rec.id := rec]
        && rec.name == name && !rec.completed && !rec.destroyed && rec.viewers == []
        && rec.offer.None? && rec.refs == 2
        && session.recorder && session.recording == rec
        && session.writingAudio == acodec.Some? && session.writingVideo == vcodec.Some?
      ensures List() == old(List())
    {
      if requested > 0 && requested in recordings {
        return ErrRecordingExists, null;
      }
      var id := requested;
      if id == 0 {
        var k;
        id, k := DrawId(draws);
      }
      rec := Admit(session, id, name, filename, acodec, vcodec);
      code := 0;
    }

    /** The second half of `Create`: the new recording under a free id. */
    method Admit(session: Session, id: nat, name: string, filename: Option<string>,
                 acodec: Option<string>, vcodec: Option<string>)
      returns (rec: Recording)
      requires Valid() && id !in recordings
      modifies this, session`recorder, session`recording, session`writingAudio, session`writingVideo
      ensures Valid() && fresh(rec) && rec.id == id && recordings == old(recordings)[id := rec]
      ensures rec.name == name && !rec.completed && !rec.destroyed && rec.viewers == []
      ensures rec.offer.None? && rec.refs == 2
      ensures session.recorder && session.recording == rec
      ensures session.writingAudio == acodec.Some? && session.writingVideo == vcodec.Some?
      ensures List() == old(List())
    {
      ghost var listed, before := List(), recordings;
      rec := new Recording(id, name, acodec, vcodec, filename);
      recordings := recordings[id := rec];
      assert List() == listed by {
        forall e | e in List() ensures e in listed {
          var i :| i in recordings && recordings[i].completed && EntryOf(recordings[i]) == e;
          assert i in before;
        }
        forall e | e in listed ensures e in List() {
          var i :| i in before && before[i].completed && EntryOf(before[i]) == e;
          assert recordings[i] == before[i];
        }
      }
      session.writingAudio := acodec.Some?;
      session.writingVideo := vcodec.Some?;
      session.recorder := true;
      session.recording := rec;
    }

    /** `janus_auviousrecordplay_recordings_remove` (lines 1176-1182): the
        entry under the recording's id leaves the table and, through the
        table's destroy notifier, is destroyed once; no other recording
        changes. */
    method Remove(rec: Recording)
      requires Valid()
      modifies this`recordings, recordings.Values`destroyed, recordings.Values`refs
      ensures Valid()
      ensures recordings == old(recordings) - {rec.id}
      ensures rec.id in old(recordings) ==>
        var r := old(recordings[rec.id]);
        r.destroyed && r.refs == (if old(r.destroyed) then old(r.refs) else old(r.refs) - 1)
      ensures forall r | r in old(recordings.Values) && (rec.id in old(recordings) ==> r != old(recordings[rec.id])) :: unchanged(r)
    {
      if rec.id in recordings {
        var r := recordings[rec.id];
        recordings := recordings - {rec.id};
        r.Destroy();
      }
    }

    /** `janus_auviousrecordplay_hangup_media_internal` (lines 1184-1230):
        the session goes inactive; unless it is destroyed the hangup counter
        goes up, and only the call that found it at zero goes on to close
        the recorders and, for a session holding a recording, remove it from
        the table and release the session's reference. */
    method Hangup(session: Session) returns (proceeded: bool)
      requires Valid()
      modifies session`active, session`hangingup, session`recording, session`writingAudio, session`writingVideo
      modifies this`recordings, recordings.Values`destroyed, recordings.Values`refs, session.Held()`refs
      ensures Valid()
      ensures forall r | r in old(recordings.Values) && r in recordings.Values :: unchanged(r)
      ensures !session.active
      ensures proceeded <==> !old(session.destroyed) && old(session.hangingup) == 0
      ensures session.hangingup == if old(session.destroyed) then old(session.hangingup) else old(session.hangingup) + 1
      ensures !session.destroyed ==> session.hangingup > 0
      ensures !proceeded ==>
        (recordings == old(recordings) && session.recording == old(session.recording)
         && session.writingAudio == old(session.writingAudio) && session.writingVideo == old(session.writingVideo)
         && (session.recording != null ==> unchanged(session.recording)))
      ensures proceeded ==> session.recording == null && !session.writingAudio && !session.writingVideo
      ensures proceeded && old(session.recording) == null ==> recordings == old(recordings)
      ensures proceeded && old(session.recording) != null ==>
        var rec := old(session.recording);
        && recordings == old(recordings) - {rec.id}
        && (rec.id in old(recordings) ==> old(recordings[rec.id]).destroyed)
        && rec.refs == old(rec.refs) - 1
             - (if rec.id in old(recordings) && old(recordings[rec.id]) == rec && !old(rec.destroyed) then 1 else 0)
    {
      session.active := false;
      if session.destroyed {
        return false;
      }
      var was := session.hangingup;
      session.hangingup := session.hangingup + 1;
      if was != 0 {
        return false;
      }
      session.active := false;
      session.writingAudio := false;
      session.writingVideo := false;
      var rec := session.recording;
      if rec != null {
        Remove(rec);
        rec.refs := rec.refs - 1;
        session.recording := null;
      }
      proceeded := true;
    }

    /** A new playout (lines 1482-1568, less the SDP restart path's offer
        rewriting): an SDP in the request fails with 414; a restart needs a
        playout session whose recording has an offer, else 418; a missing,
        offer-less or destroyed recording fails with 416 and keeps its
        reference count; each track file of the recording is indexed, and
        when neither yields frames the request fails with 417, keeping the
        reference it took; otherwise the session becomes a viewer of the
        recording. */
    method Play(session: Session, id: nat, restart: bool, hasSdp: bool, sdpUpdate: bool,
                fs: map<string, seq<byte>>, dir: string, decode: Decoder)
      returns (code: nat)
      requires forall p :: p in fs ==> Indexable(fs[p], decode)
      modifies session`aframes, session`vframes, session`recording, session`recorder
      modifies Filed(id)`refs, Filed(id)`viewers
      ensures recordings == old(recordings)
      ensures forall r | r in old(recordings.Values) && r !in Filed(id) :: unchanged(r)
      ensures code == ErrInvalidElement <==> hasSdp
      ensures !hasSdp && (sdpUpdate || restart) ==>
        unchanged(session) && (forall r :: r in old(recordings.Values) ==> unchanged(r)) &&
        code == (if session.recorder || session.recording == null || session.recording.offer.None?
                 then ErrInvalidState else 0)
      ensures !hasSdp && !sdpUpdate && !restart ==>
        var found := id in old(recordings) && old(recordings[id].offer).Some? && !old(recordings[id].destroyed);
        && (code == ErrNotFound <==> !found)
        && (!found ==> unchanged(session) && forall r :: r in old(recordings.Values) ==> unchanged(r))
        && (found ==> var rec := recordings[id];
              && rec.refs == old(rec.refs) + 1
              && session.Watched(old(session.aframes), old(session.vframes), old(session.recording),
                                 old(session.recorder), rec, old(rec.viewers), fs, dir, decode, code))
    {
      if hasSdp {
        return ErrInvalidElement;
      }
      if sdpUpdate || restart {
        if session.recorder || session.recording == null || session.recording.offer.None? {
          return ErrInvalidState;
        }
        return 0;
      }
      if id !in recordings {
        return ErrNotFound;
      }
      var rec := recordings[id];
      rec.refs := rec.refs + 1;
      if rec.offer.None? || rec.destroyed {
        rec.refs := rec.refs - 1;
        return ErrNotFound;
      }
      code := session.Watch(rec, fs, dir, decode);
    }
  }

  /** Whether the playout thread can reopen a track file (lines 2263-2295). */
  predicate Opens(fs: map<string, seq<byte>>, dir: string, name: Option<string>)
  {
    name.Some? && MjrPath(dir, name.value) in fs
  }

  /** What `get_frames` left for a track file: nothing when the file is
      missing or yields no packet, else a fresh list of its packets. */
  ghost predicate Loads(fs: map<string, seq<byte>>, dir: string, name: string, decode: Decoder,
                        list: FrameList?)
    reads list
  {
    var path := MjrPath(dir, name);
    if path !in fs then list == null
    else
      && Indexable(fs[path], decode)
      && var frames := Frames(fs[path], decode);
         (list == null <==> frames.None?) && (list != null ==> list.Valid() && list.Contents() == frames.value)
  }

  /** A recording session that records and hangs up leaves the table as it
      found it, and the new recording's two references are both released. */
  method RecordThenHangup(registry: Registry, session: Session, requested: nat, draws: seq<nat>,
                          name: string, filename: Option<string>, acodec: Option<string>,
                          vcodec: Option<string>)
    returns (rec: Recording?)
    requires registry.Valid() && !session.destroyed && session.hangingup == 0
    requires requested == 0 ==> exists j :: 0 <= j < |draws| && registry.Free(draws[j])
    requires requested !in registry.recordings
    modifies registry, registry.recordings.Values, session
    ensures rec != null && rec.destroyed && rec.refs == 0
    ensures registry.recordings == old(registry.recordings)
  {
    var code;
    code, rec := registry.Create(session, requested, draws, name, filename, acodec, vcodec);
    var proceeded := registry.Hangup(session);
    assert registry.recordings == old(registry.recordings)[rec.id := rec] - {rec.id};
  }

  /** A viewer that plays a recording, has its playout started and lets it
      run to the end leaves the viewers list and its own reference count as
      they were; the recording keeps the reference the play request took,
      which the viewer's hangup releases (line 1226). */
  method PlayThenFinish(registry: Registry, session: Session, id: nat,
                        fs: map<string, seq<byte>>, dir: string, decode: Decoder)
    returns (code: nat, started: bool)
    requires forall p :: p in fs ==> Indexable(fs[p], decode)
    requires id in registry.recordings && session !in registry.recordings[id].viewers
    requires !session.destroyed && session.aframes == null && session.vframes == null
    modifies session, registry.recordings.Values
    ensures var rec := registry.recordings[id];
      code == 0 ==>
        && started && session.recording == rec
        && rec.viewers == old(rec.viewers) && rec.refs == old(rec.refs) + 1 && session.refs == old(session.refs)
  {
    var rec := registry.recordings[id];
    ghost var (viewers0, refs0, own0) := (rec.viewers, rec.refs, session.refs);
    code := registry.Play(session, id, false, false, false, fs, dir, decode);
    started := false;
    if code == 0 {
      assert rec.viewers == viewers0 + [session] && rec.refs == refs0 + 1 && session.refs == own0;
      assert session.recording == rec && !session.recorder;
      assert session.aframes != null ==> Opens(fs, dir, rec.arcFile);
      assert session.vframes != null ==> Opens(fs, dir, rec.vrcFile);
      started := PlayOut(session, rec, viewers0, fs, dir);
    }
  }

  /** The playout of a viewer that has just joined `rec`: it starts and,
      when it ends, the viewer has left again, holding its own references
      as before while the recording keeps one more. */
  method PlayOut(session: Session, rec: Recording, ghost viewers0: seq<Session>,
                 fs: map<string, seq<byte>>, dir: string)
    returns (started: bool)
    requires !session.destroyed && !session.recorder && session.recording == rec
    requires session.aframes != null || session.vframes != null
    requires session.aframes != null ==> Opens(fs, dir, rec.arcFile)
    requires session.vframes != null ==> Opens(fs, dir, rec.vrcFile)
    requires session !in viewers0 && rec.viewers == viewers0 + [session]
    modifies session, rec`refs, rec`viewers
    ensures started && session.recording == rec && rec.viewers == viewers0
    ensures rec.refs == old(rec.refs) && session.refs == old(session.refs)
  {
    started := session.StartPlayout(fs, dir);
    session.FinishPlayout(rec);
    RemoveAfterAppend(viewers0, session);
  }

  /** No code path ever stores an offer on a recording, so playing a
      recording right after it was created is answered 416 and changes
      neither the recording nor the viewer. */
  method CreateThenPlay(registry: Registry, recorder: Session, viewer: Session, requested: nat,
                        draws: seq<nat>, name: string, filename: Option<string>,
                        acodec: Option<string>, vcodec: Option<string>,
                        fs: map<string, seq<byte>>, dir: string, decode: Decoder)
    returns (code: nat, rec: Recording?)
    requires registry.Valid() && recorder != viewer
    requires requested == 0 ==> exists j :: 0 <= j < |draws| && registry.Free(draws[j])
    requires requested !in registry.recordings
    requires forall p :: p in fs ==> Indexable(fs[p], decode)
    modifies registry, registry.recordings.Values, recorder, viewer
    ensures code == ErrNotFound
    ensures unchanged(viewer)
    ensures rec != null && rec.id in registry.recordings && registry.recordings[rec.id] == rec
    ensures rec.refs == 2 && rec.viewers == [] && rec.offer.None?
  {
    var created;
    created, rec := registry.Create(recorder, requested, draws, name, filename, acodec, vcodec);
    assert rec.id in registry.recordings && registry.recordings[rec.id] == rec;
    assert rec in registry.recordings.Values;
    code := registry.Play(viewer, rec.id, false, false, false, fs, dir, decode);
  }
}
