/** The `.mjr` recording container: how a recording's path is built, the
    checks applied to its header record, and the codec sniffer
    (`janus_auviousrecordplay_parse_codec`).

    A record is an 8-byte magic ('M', a type byte 'E' or 'J', six more
    bytes), a 2-byte big-endian length and that many payload bytes. */
module Container {
  import opened Bytes

  const MagicM: byte := 77        // 'M'
  const TypeLegacy: byte := 69    // 'E': old header, or a media frame
  const TypeInfo: byte := 74      // 'J': the JSON info header
  const KindVideo: byte := 118    // 'v'
  const KindAudio: byte := 97     // 'a'

  /** `char prebuffer[1500]`: a header longer than this writes past it. */
  const PrebufferSize: nat := 1500
  /** The window of `prebuffer` the readers ever inspect. */
  const WindowSize: nat := 16
  /** `char source[1024]` holding the file path. */
  const PathSize: nat := 1024

  /** A decoded JSON value, as far as the readers distinguish them. */
  datatype JValue = JString(s: string) | JInt(i: int) | JBool(b: bool) | JOther

  /** A decoded JSON object. */
  type Info = map<string, JValue>

  /** `json_loads`, an oracle: the object a C string decodes to, if any. */
  type Decoder = seq<byte> -> Option<Info>

  /** `janus_sdp_match_preferred_codec`, an oracle: the supported codec name
      a declared name resolves to for video (true) or audio (false). */
  type CodecMatcher = (bool, string) -> Option<string>

  /** The track an info header declares. */
  datatype Track = Track(video: bool, codec: string)

  // ---------------------------------------------------------------- paths

  predicate ContainsMjr(s: string)
  {
    |s| >= 4 && (s[..4] == ".mjr" || ContainsMjr(s[1..]))
  }

  /** `"<dir>/<filename>"` when the name already contains ".mjr", otherwise
      `"<dir>/<filename>.mjr"`, cut to what fits in the path buffer. */
  function MjrPath(dir: string, filename: string): (path: string)
    ensures |path| < PathSize
    ensures |dir| + |filename| + 5 < PathSize ==>
      |path| == |dir| + 1 + |filename| + (if ContainsMjr(filename) then 0 else 4)
      && path[..|dir| + 1] == dir + "/" && path[|dir| + 1..|dir| + 1 + |filename|] == filename
      && (!ContainsMjr(filename) ==> path[|dir| + 1 + |filename|..] == ".mjr")
  {
    Truncate(if ContainsMjr(filename) then dir + "/" + filename else dir + "/" + filename + ".mjr", PathSize)
  }

  lemma {:induction false} ContainsMjrAppend(s: string, t: string)
    requires ContainsMjr(t)
    ensures ContainsMjr(s + t)
  {
    if s != [] {
      assert (s + t)[1..] == s[1..] + t;
      ContainsMjrAppend(s[1..], t);
    } else {
      assert s + t == t;
    }
  }

  /** Naming a recording with or without its ".mjr" extension opens the same file. */
  lemma MjrPathExtensionOptional(dir: string, filename: string)
    requires !ContainsMjr(filename)
    ensures MjrPath(dir, filename + ".mjr") == MjrPath(dir, filename)
  {
    assert ContainsMjr(".mjr");
    ContainsMjrAppend(filename, ".mjr");
    assert dir + "/" + (filename + ".mjr") == dir + "/" + filename + ".mjr";
  }

  // ------------------------------------------------------- the info header

  /** The declared track of an info header: `"t"` a string equal to "v" or
      "a" ignoring case, and `"c"` a string (lines 510-531 and 1991-2019). */
  function InfoTrack(info: Info): (r: Option<Track>)
    ensures r.Some? <==>
      && "t" in info && info["t"].JString?
      && (EqualsIgnoreCase(info["t"].s, "v") || EqualsIgnoreCase(info["t"].s, "a"))
      && "c" in info && info["c"].JString?
    ensures r.Some? ==> r.value.codec == info["c"].s && (r.value.video <==> EqualsIgnoreCase(info["t"].s, "v"))
  {
    if "t" !in info || !info["t"].JString? then None
    else
      var video := EqualsIgnoreCase(info["t"].s, "v");
      if !video && !EqualsIgnoreCase(info["t"].s, "a") then None
      else if "c" !in info || !info["c"].JString? then None
      else Some(Track(video, info["c"].s))
  }

  /** The C string `json_loads` receives after `fread(prebuffer, 1, len)`
      delivered `data` and `prebuffer[len]` was set to NUL: bytes the read
      did not reach keep the window's stale values, and beyond the window the
      buffer is still zero from its `memset`. */
  function InfoText(window: seq<byte>, data: seq<byte>, len: nat): (text: seq<byte>)
    requires |data| <= len
    ensures |text| <= len
    ensures |data| == len && (forall i :: 0 <= i < |data| ==> data[i] != 0) ==> text == data
  {
    var buffer := data + (window + Zeros(len))[|data|..len];
    assert |data| == len ==> buffer == data;
    CString(buffer)
  }

  /** The window after the info header was read over it and NUL-terminated. */
  function AfterInfo(window: seq<byte>, data: seq<byte>, len: nat): (w: seq<byte>)
    requires |window| == WindowSize
    ensures |w| == WindowSize
  {
    var w := Overlay(window, data);
    if len < WindowSize then w[len := 0] else w
  }

  // ---------------------------------------------------------- the sniffer

  /** Whether the first record is an info header too long for `prebuffer`:
      the source then writes past the buffer (undefined behaviour). */
  predicate SniffOverrun(file: seq<byte>)
  {
    |file| >= 8 && file[0] == MagicM && file[1] == TypeInfo && ReadLength(file, 8, 0) >= PrebufferSize
  }

  /** The codec a recording file declares (lines 478-592). Only the first
      record is ever examined: every branch of the loop returns. A legacy
      header of length 5 names a whole-file default codec by its first
      payload byte; an info header is decoded and its declared codec
      resolved against the supported ones. Anything else yields no codec. */
  function Sniff(file: seq<byte>, decode: Decoder, matchCodec: CodecMatcher): (r: Option<string>)
    requires !SniffOverrun(file)
    ensures r.Some? ==> |file| >= 9 && file[0] == MagicM && (file[1] == TypeLegacy || file[1] == TypeInfo)
  {
    var magic := Read(file, 0, 8);
    if |magic| != 8 || magic[0] != MagicM then None
    else
      var window := Overlay(Zeros(WindowSize), magic);
      var len := ReadLength(file, 8, 0);
      if magic[1] == TypeLegacy then
        if len == 5 then
          var w := Overlay(window, Read(file, 10, 5));
          if w[0] == KindVideo then Some("vp8")
          else if w[0] == KindAudio then Some("opus")
          else None
        else None
      else if magic[1] == TypeInfo then
        if len > 0 then
          match decode(InfoText(window, Read(file, 10, len), len))
          case None => None
          case Some(info) =>
            match InfoTrack(info)
            case None => None
            case Some(t) => matchCodec(t.video, t.codec)
        else None
      else None
  }

  /** `janus_auviousrecordplay_parse_codec(dir, filename)`: a file that
      cannot be opened yields no codec. */
  function ParseCodec(fs: map<string, seq<byte>>, dir: string, filename: string,
                      decode: Decoder, matchCodec: CodecMatcher): (r: Option<string>)
    requires MjrPath(dir, filename) in fs ==> !SniffOverrun(fs[MjrPath(dir, filename)])
    ensures MjrPath(dir, filename) !in fs ==> r == None
  {
    var path := MjrPath(dir, filename);
    if path !in fs then None else Sniff(fs[path], decode, matchCodec)
  }

  /** On a legacy file the sniffer succeeds exactly when the length is 5 and
      the payload starts with 'v' or 'a'. */
  lemma SniffLegacyExactly(file: seq<byte>, decode: Decoder, matchCodec: CodecMatcher)
    requires |file| >= 2 && file[1] == TypeLegacy
    ensures Sniff(file, decode, matchCodec).Some? <==>
      |file| >= 11 && file[0] == MagicM && Be16(file[8], file[9]) == 5
      && (file[10] == KindVideo || file[10] == KindAudio)
  {
    if |file| >= 8 && file[0] == MagicM && ReadLength(file, 8, 0) == 5 {
      assert |file| >= 10;
    }
  }

  // ------------------------------------- the records a recorder writes

  /** An old-format header: "MEETECHO", length 5, then "video" or "audio". */
  function LegacyHeader(video: bool): (r: seq<byte>)
    ensures |r| == 15 && r[0] == MagicM && r[1] == TypeLegacy
  {
    Ascii("MEETECHO") + [0, 5] + Ascii(if video then "video" else "audio")
  }

  /** A current-format header: "MJR00002", the length, then the JSON text. */
  function InfoRecord(json: seq<byte>): (r: seq<byte>)
    requires |json| < 0x1_0000
    ensures |r| == 10 + |json| && r[0] == MagicM && r[1] == TypeInfo && r[10..] == json
    ensures Be16(r[8], r[9]) == |json|
  {
    Ascii("MJR00002") + [(|json| / 0x100) as byte, (|json| % 0x100) as byte] + json
  }

  /** A legacy header is read back as the default codec it stands for,
      whatever records follow it. */
  lemma SniffLegacyHeader(video: bool, rest: seq<byte>, decode: Decoder, matchCodec: CodecMatcher)
    ensures Sniff(LegacyHeader(video) + rest, decode, matchCodec) == Some(if video then "vp8" else "opus")
  {
    var file := LegacyHeader(video) + rest;
    assert file[..15] == LegacyHeader(video);
    ReadBytes(file, 0, 8);
    var magic := Read(file, 0, 8);
    assert magic[0] == MagicM && magic[1] == TypeLegacy;
    assert ReadLength(file, 8, 0) == 5;
    ReadBytes(file, 10, 5);
    var w := Overlay(Overlay(Zeros(WindowSize), magic), Read(file, 10, 5));
    assert w[0] == file[10] == LegacyHeader(video)[10];
  }

  /** An info header is read back as its declared codec resolved for its
      declared kind, whatever records follow it. */
  lemma SniffInfoHeader(json: seq<byte>, rest: seq<byte>, info: Info,
                        decode: Decoder, matchCodec: CodecMatcher)
    requires 0 < |json| < PrebufferSize
    requires forall i :: 0 <= i < |json| ==> json[i] != 0
    requires decode(json) == Some(info) && InfoTrack(info).Some?
    ensures !SniffOverrun(InfoRecord(json) + rest)
    ensures Sniff(InfoRecord(json) + rest, decode, matchCodec)
         == matchCodec(InfoTrack(info).value.video, InfoTrack(info).value.codec)
  {
    var file := InfoRecord(json) + rest;
    assert file[..10 + |json|] == InfoRecord(json);
    assert ReadLength(file, 8, 0) == |json|;
    ReadBytes(file, 10, |json|);
    assert Read(file, 10, |json|) == json;
  }

  /** An info header is rejected, whatever records follow it, when its JSON
      does not decode (lines 537-543), when it declares no track: "t"
      missing, not a string, or neither "v" nor "a" (lines 545-563), or
      "c" missing or not a string (lines 565-571). */
  lemma SniffInfoRejected(json: seq<byte>, rest: seq<byte>, decode: Decoder, matchCodec: CodecMatcher)
    requires 0 < |json| < PrebufferSize
    requires forall i :: 0 <= i < |json| ==> json[i] != 0
    requires decode(json).None? || InfoTrack(decode(json).value).None?
    ensures !SniffOverrun(InfoRecord(json) + rest)
    ensures Sniff(InfoRecord(json) + rest, decode, matchCodec) == None
  {
    var file := InfoRecord(json) + rest;
    assert file[..10 + |json|] == InfoRecord(json);
    assert ReadLength(file, 8, 0) == |json|;
    ReadBytes(file, 10, |json|);
    assert Read(file, 10, |json|) == json;
  }

  /** An info header whose declared codec is not a supported one for its
      track is rejected too (lines 573-584). */
  lemma SniffInfoUnmatched(json: seq<byte>, rest: seq<byte>, info: Info,
                           decode: Decoder, matchCodec: CodecMatcher)
    requires 0 < |json| < PrebufferSize
    requires forall i :: 0 <= i < |json| ==> json[i] != 0
    requires decode(json) == Some(info) && InfoTrack(info).Some?
    requires matchCodec(InfoTrack(info).value.video, InfoTrack(info).value.codec).None?
    ensures Sniff(InfoRecord(json) + rest, decode, matchCodec) == None
  {
    SniffInfoHeader(json, rest, info, decode, matchCodec);
  }

  /** An empty info header names no codec (line 526). */
  lemma SniffEmptyInfo(rest: seq<byte>, decode: Decoder, matchCodec: CodecMatcher)
    ensures !SniffOverrun(InfoRecord([]) + rest)
    ensures Sniff(InfoRecord([]) + rest, decode, matchCodec) == None
  {
    var file := InfoRecord([]) + rest;
    assert file[..10] == InfoRecord([]);
    ReadBytes(file, 0, 8);
    var magic := Read(file, 0, 8);
    assert |magic| == 8 && magic[0] == MagicM && magic[1] == TypeInfo && magic[1] != TypeLegacy;
    assert ReadLength(file, 8, 0) == 0;
  }
}
