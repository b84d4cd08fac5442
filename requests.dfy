/** The synchronous side of `janus_auviousrecordplay_handle_message`
    (lines 865-1030): which requests are answered at once, which are queued
    for the handler thread, and which fail with which error code; the
    parameter tables they are validated against (lines 323-339); and the
    small pure helpers a new recording is built with (payload types and the
    per-track file names, lines 1397-1433). */
module Requests {
  import opened Bytes
  import opened Container
  import Playout

  // ------------------------------------------------------------ error codes

  const ErrNoMessage: nat := 411
  const ErrInvalidJson: nat := 412
  const ErrInvalidRequest: nat := 413
  const ErrInvalidElement: nat := 414
  const ErrMissingElement: nat := 415
  const ErrNotFound: nat := 416
  const ErrInvalidRecording: nat := 417
  const ErrInvalidState: nat := 418
  const ErrInvalidSdp: nat := 419
  const ErrRecordingExists: nat := 420
  const ErrUnknown: nat := 499

  // ---------------------------------------------------- parameter validation

  datatype Kind = KString | KInt | KBool

  /** One row of a `janus_json_parameter` table: the key, its JSON type and
      the REQUIRED / POSITIVE / NONEMPTY flags. */
  datatype Param = Param(key: string, kind: Kind, required: bool, positive: bool, nonEmpty: bool)

  const RequestParams: seq<Param> := [Param("request", KString, true, false, false)]
  const ConfigureParams: seq<Param> :=
    [Param("video-bitrate-max", KInt, false, true, false),
     Param("video-keyframe-interval", KInt, false, true, false)]
  const RecordParams: seq<Param> :=
    [Param("name", KString, true, false, true),
     Param("id", KInt, false, true, false),
     Param("filename", KString, false, false, false),
     Param("update", KBool, false, false, false)]
  const PlayParams: seq<Param> :=
    [Param("id", KInt, true, true, false),
     Param("restart", KBool, false, false, false)]

  predicate HasKind(v: JValue, k: Kind)
  {
    match k
    case KString => v.JString?
    case KInt => v.JInt?
    case KBool => v.JBool?
  }

  /** A present value of the right type that meets its flags. */
  predicate Fits(v: JValue, p: Param)
  {
    && HasKind(v, p.kind)
    && (p.positive && v.JInt? ==> v.i >= 0)
    && (p.nonEmpty && v.JString? ==> |v.s| > 0)
  }

  /** The object satisfies one parameter: absent only when optional. */
  predicate Accepts(fields: Info, p: Param)
  {
    if p.key in fields then Fits(fields[p.key], p) else !p.required
  }

  /** `JANUS_VALIDATE_JSON_OBJECT`: the parameters are checked in table order
      and the first one that fails decides the code, 415 when a required key
      is missing and 414 when a present value has the wrong type or breaks a
      flag; 0 when every parameter is satisfied. */
  function Validate(fields: Info, params: seq<Param>): (code: nat)
    ensures code == 0 || code == ErrInvalidElement || code == ErrMissingElement
    ensures code == 0 <==> forall i :: 0 <= i < |params| ==> Accepts(fields, params[i])
    ensures code == ErrMissingElement ==>
      exists i :: 0 <= i < |params| && params[i].required && params[i].key !in fields
    ensures code == ErrInvalidElement ==>
      exists i :: 0 <= i < |params| && params[i].key in fields && !Fits(fields[params[i].key], params[i])
  {
    if params == [] then 0
    else
      var p := params[0];
      if p.key !in fields && p.required then ErrMissingElement
      else if p.key in fields && !Fits(fields[p.key], p) then ErrInvalidElement
      else
        var code := Validate(fields, params[1..]);
        assert forall i :: 1 <= i < |params| ==> params[i] == params[1..][i - 1];
        code
  }

  // ------------------------------------------------------- request dispatch

  /** The decoded message: a JSON object (its members) or any other value. */
  datatype Message = Object(fields: Info) | NotObject

  /** The synchronous answer to one message, or the note that it was queued. */
  datatype Reply =
    | Failure(code: nat)
    | Updated
    | Listing
    | Configured(bitrate: Option<nat>, interval: Option<nat>)
    | Queued(request: string)

  /** The requests the handler thread takes over (lines 983-986). */
  predicate IsAsync(name: string)
  {
    || EqualsIgnoreCase(name, "record") || EqualsIgnoreCase(name, "play")
    || EqualsIgnoreCase(name, "start") || EqualsIgnoreCase(name, "stop")
    || EqualsIgnoreCase(name, "record-generate-offer")
    || EqualsIgnoreCase(name, "record-process-answer")
  }

  /** The value a `guint32` / `guint` field keeps of a JSON integer. */
  function Unsigned32(i: int): (r: nat)
    ensures r < 0x1_0000_0000
    ensures 0 <= i < 0x1_0000_0000 ==> r == i
  {
    i % 0x1_0000_0000
  }

  /** The setting a configure request carries under `key`, as stored. */
  function Setting(fields: Info, key: string): Option<nat>
  {
    if key in fields && fields[key].JInt? then Some(Unsigned32(fields[key].i)) else None
  }

  /** `handle_message` for a handle whose session is `known` (and maybe
      `destroyed`); `message` is None for a NULL message. Every synchronous
      branch builds a response, so the "Invalid response" fallback is never
      taken. */
  function HandleMessage(known: bool, destroyed: bool, message: Option<Message>): (r: Reply)
  {
    if !known || destroyed then Failure(ErrUnknown)
    else if message.None? then Failure(ErrNoMessage)
    else if message.value.NotObject? then Failure(ErrInvalidJson)
    else
      var fields := message.value.fields;
      var code := Validate(fields, RequestParams);
      if code != 0 then Failure(code)
      else
        var name := fields["request"].s;
        if EqualsIgnoreCase(name, "update") then Updated
        else if EqualsIgnoreCase(name, "list") then Listing
        else if EqualsIgnoreCase(name, "configure") then
          var code := Validate(fields, ConfigureParams);
          if code != 0 then Failure(code)
          else Configured(Setting(fields, "video-bitrate-max"), Setting(fields, "video-keyframe-interval"))
        else if IsAsync(name) then Queued(name)
        else Failure(ErrInvalidRequest)
  }

  /** The request name of a message that passed the first validation. */
  predicate Names(message: Option<Message>, name: string)
  {
    && message.Some? && message.value.Object?
    && "request" in message.value.fields && message.value.fields["request"] == JString(name)
  }

  /** Which messages fail, and with which code. */
  lemma HandleMessageFailures(known: bool, destroyed: bool, message: Option<Message>)
    ensures var r := HandleMessage(known, destroyed, message);
      && (r == Failure(ErrUnknown) <==> !known || destroyed)
      && (r == Failure(ErrNoMessage) <==> known && !destroyed && message.None?)
      && (r == Failure(ErrInvalidJson) <==> known && !destroyed && message == Some(NotObject))
      && (r.Failure? ==> r.code in {ErrUnknown, ErrNoMessage, ErrInvalidJson, ErrInvalidRequest,
                                    ErrInvalidElement, ErrMissingElement})
      && (r == Failure(ErrInvalidRequest) <==>
            known && !destroyed &&
            exists name :: Names(message, name) &&
              !EqualsIgnoreCase(name, "update") && !EqualsIgnoreCase(name, "list") &&
              !EqualsIgnoreCase(name, "configure") && !IsAsync(name))
  {
    var r := HandleMessage(known, destroyed, message);
    if known && !destroyed && message.Some? && message.value.Object? {
      var fields := message.value.fields;
      if Validate(fields, RequestParams) == 0 {
        assert Accepts(fields, RequestParams[0]);
        assert Names(message, fields["request"].s);
      } else {
        forall name | Names(message, name) ensures false {
          assert Accepts(fields, RequestParams[0]);
        }
      }
    }
  }

  /** Two names whose lower-case forms differ in length or in their first
      letter are not both equal to one text, ignoring case. */
  lemma NotBoth(x: string, a: string, b: string)
    requires |a| != |b| || (|a| > 0 && |b| > 0 && LowerChar(a[0]) != LowerChar(b[0]))
    ensures !(EqualsIgnoreCase(x, a) && EqualsIgnoreCase(x, b))
  {
    if |a| == |b| {
      assert Lower(a)[0] != Lower(b)[0];
    }
  }

  /** The names answered at once are none of the queued ones. */
  lemma SyncNotAsync(name: string)
    ensures (EqualsIgnoreCase(name, "update") || EqualsIgnoreCase(name, "list")
             || EqualsIgnoreCase(name, "configure")) ==> !IsAsync(name)
  {
    var asyncs := ["record", "play", "start", "stop", "record-generate-offer", "record-process-answer"];
    forall a | a in asyncs
      ensures !(EqualsIgnoreCase(name, "update") && EqualsIgnoreCase(name, a))
      ensures !(EqualsIgnoreCase(name, "list") && EqualsIgnoreCase(name, a))
      ensures !(EqualsIgnoreCase(name, "configure") && EqualsIgnoreCase(name, a))
    {
      NotBoth(name, "update", a);
      NotBoth(name, "list", a);
      NotBoth(name, "configure", a);
    }
  }

  /** A message is queued exactly when its request names one of the six
      asynchronous requests, whatever the letter case. */
  lemma QueuedExactly(known: bool, destroyed: bool, message: Option<Message>)
    ensures HandleMessage(known, destroyed, message).Queued? <==>
      known && !destroyed && exists name :: Names(message, name) && IsAsync(name)
    ensures HandleMessage(known, destroyed, message).Queued? ==>
      Names(message, HandleMessage(known, destroyed, message).request)
  {
    if known && !destroyed && message.Some? && message.value.Object? {
      var fields := message.value.fields;
      if Validate(fields, RequestParams) == 0 {
        assert Accepts(fields, RequestParams[0]);
        var name := fields["request"].s;
        assert Names(message, name);
        SyncNotAsync(name);
      } else {
        forall name | Names(message, name) ensures false {
          assert Accepts(fields, RequestParams[0]);
        }
      }
    }
  }

  /** `strcasecmp` dispatch: two request names that differ only in letter
      case are answered alike. */
  lemma HandleMessageIgnoresCase(known: bool, destroyed: bool, fields: Info, a: string, b: string)
    requires EqualsIgnoreCase(a, b)
    ensures var ra := HandleMessage(known, destroyed, Some(Object(fields["request" := JString(a)])));
      var rb := HandleMessage(known, destroyed, Some(Object(fields["request" := JString(b)])));
      && (ra.Queued? <==> rb.Queued?)
      && (!ra.Queued? ==> ra == rb)
  {
    var fa := fields["request" := JString(a)];
    var fb := fields["request" := JString(b)];
    assert Validate(fa, RequestParams) == 0 && Validate(fb, RequestParams) == 0 by {
      assert Accepts(fa, RequestParams[0]) && Accepts(fb, RequestParams[0]);
    }
    assert forall k :: k != "request" ==> (k in fa <==> k in fb) && (k in fa ==> fa[k] == fb[k]);
    assert Setting(fa, "video-bitrate-max") == Setting(fb, "video-bitrate-max");
    assert Setting(fa, "video-keyframe-interval") == Setting(fb, "video-keyframe-interval");
    assert Validate(fa, ConfigureParams) == Validate(fb, ConfigureParams) by {
      assert ConfigureParams[1..][1..] == [];
    }
  }

  /** A configure request stores what it carries, cut to 32 bits, and fails
      with 414 on a negative or non-integer setting. */
  lemma ConfigureSettings(fields: Info)
    requires "request" in fields && fields["request"] == JString("configure")
    ensures var r := HandleMessage(true, false, Some(Object(fields)));
      && (r.Configured? <==> Accepts(fields, ConfigureParams[0]) && Accepts(fields, ConfigureParams[1]))
      && (!r.Configured? ==> r == Failure(ErrInvalidElement))
      && (r.Configured? && "video-bitrate-max" in fields ==>
            r.bitrate == Some(fields["video-bitrate-max"].i % 0x1_0000_0000))
      && (r.Configured? && "video-keyframe-interval" !in fields ==> r.interval.None?)
  {
    assert Accepts(fields, RequestParams[0]);
    var code := Validate(fields, ConfigureParams);
    assert code == 0 <==> Accepts(fields, ConfigureParams[0]) && Accepts(fields, ConfigureParams[1]);
  }

  // -------------------------------------------------------- payload types

  /** `AUDIO_PT` and `VIDEO_PT` (lines 458-459). */
  const DefaultAudioPt: nat := 111
  const VideoPt: nat := 100

  /** The audio payload type of a new recording (lines 1397-1406 and
      1780-1789): the static types of PCMU, PCMA and G.722 keep their
      numbers, every other codec uses the dynamic 111. The playout's audio
      clock is then 8 kHz exactly for the three static codecs. */
  function AudioPayloadType(acodec: Option<string>): (pt: nat)
    ensures pt == 0 || pt == 8 || pt == 9 || pt == DefaultAudioPt
    ensures Playout.AudioKhz(pt) == 8 <==>
      acodec.Some? &&
      (EqualsIgnoreCase(acodec.value, "pcmu") || EqualsIgnoreCase(acodec.value, "pcma")
       || EqualsIgnoreCase(acodec.value, "g722"))
  {
    if acodec.None? then DefaultAudioPt
    else if EqualsIgnoreCase(acodec.value, "pcmu") then 0
    else if EqualsIgnoreCase(acodec.value, "pcma") then 8
    else if EqualsIgnoreCase(acodec.value, "g722") then 9
    else DefaultAudioPt
  }

  // ------------------------------------------------------ track file names

  /** The size of the `filename` buffers (lines 1415 and 1425). */
  const NameSize: nat := 256

  /** The file name of a new recording's audio or video track (lines
      1414-1433): `"<filename>-audio"` when the request named one, else
      `"rec-<id>-audio"`, cut to what fits in 256 bytes. */
  function TrackFileName(filename: Option<string>, id: nat, video: bool): (name: string)
    ensures |name| < NameSize
  {
    var suffix := if video then "-video" else "-audio";
    Truncate(if filename.Some? then filename.value + suffix else "rec-" + Decimal(id) + suffix, NameSize)
  }

  function Pow10(k: nat): (r: nat)
    ensures r >= 1
  {
    if k == 0 then 1 else 10 * Pow10(k - 1)
  }

  lemma {:induction false} Pow10Split(a: nat, b: nat)
    ensures Pow10(a + b) == Pow10(a) * Pow10(b)
  {
    if a > 0 {
      Pow10Split(a - 1, b);
      assert Pow10(a + b) == 10 * Pow10(a - 1 + b);
    }
  }

  lemma {:induction false} DecimalShort(n: nat, k: nat)
    requires 1 <= k && n < Pow10(k)
    ensures |Decimal(n)| <= k
  {
    if n >= 10 {
      assert k >= 2;
      assert n / 10 < Pow10(k - 1);
      DecimalShort(n / 10, k - 1);
    }
  }

  /** A generated name is never cut: a 64-bit id has at most 20 digits. */
  lemma GeneratedNameWhole(id: nat, video: bool)
    requires id < 0x1_0000_0000_0000_0000
    ensures TrackFileName(None, id, video) == "rec-" + Decimal(id) + (if video then "-video" else "-audio")
  {
    assert Pow10(5) == 100_000;
    Pow10Split(5, 5);
    Pow10Split(10, 10);
    DecimalShort(id, 20);
  }

  /** Recordings with different ids get different generated track names. */
  lemma GeneratedNamesDistinct(a: nat, b: nat, video: bool)
    requires a < 0x1_0000_0000_0000_0000 && b < 0x1_0000_0000_0000_0000
    requires TrackFileName(None, a, video) == TrackFileName(None, b, video)
    ensures a == b
  {
    GeneratedNameWhole(a, video);
    GeneratedNameWhole(b, video);
    var s := TrackFileName(None, a, video);
    assert s[4..|s| - 6] == Decimal(a) && s[4..|s| - 6] == Decimal(b);
    DecimalInjective(a, b);
  }

  /** The audio and video tracks of one recording share a file name exactly
      when the requested name leaves no room for the suffixes' second
      character, that is when it is 254 characters or longer. */
  lemma TrackNamesCollide(filename: string, id: nat)
    ensures TrackFileName(Some(filename), id, false) == TrackFileName(Some(filename), id, true)
      <==> |filename| >= 254
  {
    var a := TrackFileName(Some(filename), id, false);
    var v := TrackFileName(Some(filename), id, true);
    if |filename| < 254 {
      assert a[|filename| + 1] == 'a' && v[|filename| + 1] == 'v';
    } else {
      assert |a| == 255 == |v|;
      assert forall i :: 0 <= i < 255 ==> a[i] == v[i];
    }
  }
}
