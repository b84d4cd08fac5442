# Record&Play plugin core, modelled in Dafny

A model of the core of the Auvious Record&Play plugin for the Janus WebRTC
gateway (`plugins/janus_auviousrecordplay.c`). The plugin records a peer's
audio and video into `.mjr` recording files and replays them to viewers.
The model covers:

- **Recording files** (`bytes.dfy`, `container.dfy`). A recording file is
  held in memory as a byte sequence. `fread` is modelled as a short read at
  the end of the file; when a 2-byte length read comes up short, the stale
  value of `len` stays. The model also covers how a recording's path is
  built, with the ".mjr" extension optional, and the codec sniffer
  `parse_codec`. The sniffer reads either the legacy "MEETECHO" header or
  the JSON info header.
- **The frame index** (`frameindex.dfy`). `get_frames` makes two passes
  over a recording.
  - Pass 1 validates the records and tracks timestamp resets (`first_ts`,
    `last_ts`, `reset`).
  - Pass 2 creates one packet per RTP record, with an extended timestamp.
  - Each packet goes into a doubly linked list by a backward scan from the
    tail. The scan orders by timestamp and breaks ties by sequence number,
    allowing for 16-bit wrap-around.
  - The list is a class over node arrays (`next`/`prev` indices). Its
    insert method is proved to keep the list sorted, and the built list is
    proved to be a permutation of the packets.
- **Playout pacing** (`playout.dfy`). The playout thread's loop has two
  cursors, one per track. Gaps are converted from RTP timestamps to
  microseconds with C's truncating division. The reference time advances
  after every send. Video sends a whole run of packets that share one
  timestamp. The payload type is rewritten on every relayed packet. The
  loop is a method over a series of clock readings, proved against a
  per-track function `Run`.
- **Requests** (`requests.dfy`). The synchronous side of `handle_message`:
  - the error codes and their order;
  - the parameter tables and what validating against them means;
  - case-insensitive dispatch to update, list, configure, or the queue of
    asynchronous requests;
  - the payload type of a new recording;
  - the names of its track files.
- **Registry and sessions** (`registry.dfy`). The `recordings` table:
  - creating a recording, either under a requested id or under random ids
    drawn until one is free;
  - the list request, removing a recording, and looking one up for playout;
  - each recording's viewers list and destroy-once flags;
  - hangup, which only its first caller carries out;
  - the RTCP feedback timers (a REMB ramp-up, then periodic REMB and PLI);
  - reference counts, kept as plain counters.

## Model

| member | source | states |
|---|---|---|
| Bytes.Read | plugins/janus_auviousrecordplay.c:1953 | `fread` of `n` bytes at a position delivers exactly `n` when the file holds them, fewer only at the end of the file |
| Bytes.ReadBytes | plugins/janus_auviousrecordplay.c:1953 | the bytes delivered are the file's bytes from that position on |
| Bytes.Be16 | plugins/janus_auviousrecordplay.c:1963 | `ntohs` of two bytes is below 2^16 |
| Bytes.Be32 | plugins/janus_auviousrecordplay.c:2076 | `ntohl` of four bytes is below 2^32 |
| Bytes.ReadLength | plugins/janus_auviousrecordplay.c:1962-1963 | the length read is the big-endian value of the two bytes when both are present; with nothing read, it is the byte swap of the stale `len` |
| Bytes.CString | plugins/janus_auviousrecordplay.c:2003-2005 | the string `json_loads` sees is the prefix before the first NUL, holds no NUL, and ends at a NUL or at the buffer's end |
| Bytes.Lower | plugins/janus_auviousrecordplay.c:916 | lower-casing keeps the length and maps each character |
| Bytes.Truncate | plugins/janus_auviousrecordplay.c:1417 | `g_snprintf` keeps a prefix shorter than the buffer size, and the whole string when it fits |
| Bytes.Decimal | plugins/janus_auviousrecordplay.c:1419 | `%"SCNu64` prints a non-empty digit string without a leading zero |
| Bytes.DecimalRoundTrip | plugins/janus_auviousrecordplay.c:1419 | reading the printed id back gives the id |
| Bytes.DecimalInjective | plugins/janus_auviousrecordplay.c:1419 | different ids print differently |
| Container.MjrPath | plugins/janus_auviousrecordplay.c:466-469 | the path fits in `source[1024]`; when nothing is cut it is `dir/filename`, with ".mjr" appended when the name does not already contain it |
| Container.ContainsMjrAppend | plugins/janus_auviousrecordplay.c:466 | `strstr` still finds ".mjr" after a prefix is added |
| Container.MjrPathExtensionOptional | plugins/janus_auviousrecordplay.c:1926-1929 | naming a recording with or without ".mjr" opens the same file |
| Container.InfoTrack | plugins/janus_auviousrecordplay.c:545-572 | an info header declares a track exactly when "t" is the string "v" or "a" in any case and "c" is a string; the codec is "c" and the track is video when "t" is "v" |
| Container.InfoText | plugins/janus_auviousrecordplay.c:528-537 | the JSON text is at most `len` bytes, and is exactly the data read when the whole header was read and holds no NUL |
| Container.Sniff | plugins/janus_auviousrecordplay.c:478-592 | a codec is found only in a file of at least 9 bytes that starts with an 'M' and a legacy or info type byte |
| Container.ParseCodec | plugins/janus_auviousrecordplay.c:462-474 | a missing file yields no codec |
| Container.SniffLegacyExactly | plugins/janus_auviousrecordplay.c:497-519 | a legacy file is recognised exactly when its length field is 5 and the media byte is 'v' or 'a' |
| Container.LegacyHeader | plugins/janus_auviousrecordplay.c:497-515 | an old-format header is 15 bytes and starts with "ME" |
| Container.InfoRecord | plugins/janus_auviousrecordplay.c:520-528 | a current-format header starts with "MJ", carries the JSON length big-endian, then the JSON |
| Container.SniffLegacyHeader | plugins/janus_auviousrecordplay.c:503-515 | a legacy header sniffs as "vp8" for video and "opus" for audio |
| Container.SniffInfoHeader | plugins/janus_auviousrecordplay.c:520-584 | an info header that fits the buffer sniffs as its declared codec matched for its track type |
| Container.SniffInfoRejected | plugins/janus_auviousrecordplay.c:537-571 | an info header whose JSON does not parse, or lacks a string "t" of "v"/"a" and a string "c", yields no codec |
| Container.SniffInfoUnmatched | plugins/janus_auviousrecordplay.c:573-584 | an info header whose codec the matcher does not accept for its track type yields no codec |
| Container.SniffEmptyInfo | plugins/janus_auviousrecordplay.c:526 | an info header declaring a zero length yields no codec |
| FrameIndex.Observe | plugins/janus_auviousrecordplay.c:2075-2091 | the first timestamp sets `first_ts` one million below it (or 0); a backward step of more than 2·10^9 records a reset; later timestamps below the reset lower it |
| FrameIndex.ObserveAllSnoc | plugins/janus_auviousrecordplay.c:2075-2091 | observing one more timestamp is one more `Observe` |
| FrameIndex.ResetNeedsJump | plugins/janus_auviousrecordplay.c:2080-2089 | a nonzero reset is only ever recorded after a backward jump of more than 2·10^9 |
| FrameIndex.ExtTs | plugins/janus_auviousrecordplay.c:2127-2141 | the extended timestamp is the raw one, or raw + 2^32 exactly when there was a reset and the raw value is at most `first_ts` |
| FrameIndex.PostResetAfterPreReset | plugins/janus_auviousrecordplay.c:2127-2141 | after a reset every post-reset packet sorts after every pre-reset packet |
| FrameIndex.WrapIsDetected | plugins/janus_auviousrecordplay.c:2075-2141 | a wrap from near 2^32 to 5000 is detected as a reset and the later packet sorts last |
| FrameIndex.InsertAt | plugins/janus_auviousrecordplay.c:2155-2198 | the backward scan stops right after the last node the new packet goes after, and no later node qualifies |
| FrameIndex.InsertAtUnique | plugins/janus_auviousrecordplay.c:2155-2198 | those two properties determine the insertion point |
| FrameIndex.InsertedSorted | plugins/janus_auviousrecordplay.c:2147-2211 | inserting keeps the list non-decreasing in timestamp |
| FrameIndex.InsertedPermutation | plugins/janus_auviousrecordplay.c:2147-2211 | inserting adds exactly the new packet |
| FrameIndex.BuildSorted | plugins/janus_auviousrecordplay.c:2096-2214 | the built list is non-decreasing in timestamp |
| FrameIndex.BuildPermutation | plugins/janus_auviousrecordplay.c:2096-2214 | the built list is a permutation of the packets created |
| FrameIndex.WrappedSequenceOrder | plugins/janus_auviousrecordplay.c:2169-2199 | with equal timestamps, sequence number 65530 is placed before 10 whatever the file order |
| FrameIndex.ScanPassesTies | plugins/janus_auviousrecordplay.c:2169-2199 | an equal sequence number, or a gap of exactly 10000, never stops the scan |
| FrameIndex.Step1 | plugins/janus_auviousrecordplay.c:1950-2093 | a record pass 1 accepts moves the offset past its 10 header bytes at least |
| FrameIndex.Scan1 | plugins/janus_auviousrecordplay.c:1948-2093 | pass 1 either rejects the file or ends at a well-formed cursor |
| FrameIndex.Next2 | plugins/janus_auviousrecordplay.c:2101-2113 | pass 2 moves to the next record past the length it read, which is `ReadLength` with the stale length |
| FrameIndex.Packet2 | plugins/janus_auviousrecordplay.c:2116-2141 | a packet starts after the 10 header bytes, has the record's length and a 16-bit sequence number |
| FrameIndex.Scan2Bounds | plugins/janus_auviousrecordplay.c:2109-2114 | every packet of pass 2 is at least 12 bytes long and lies past the header |
| FrameIndex.Scan2Fields | plugins/janus_auviousrecordplay.c:2121-2141 | every packet carries its record's RTP sequence number and extended timestamp |
| FrameIndex.RtpFields | plugins/janus_auviousrecordplay.c:2116-2126 | the RTP header fields are read from the first bytes of the payload |
| FrameIndex.FramesSortedPermutation | plugins/janus_auviousrecordplay.c:1921-2229 | every list `get_frames` returns is non-empty, non-decreasing in timestamp, and a permutation of the records of pass 2 |
| FrameIndex.FrameList.constructor | plugins/janus_auviousrecordplay.c:2097 | the empty list |
| FrameIndex.FrameList.Neighbours | plugins/janus_auviousrecordplay.c:2147-2211 | in a well-formed list, `next` and `prev` lead one position on and back, and -1 exactly at the ends |
| FrameIndex.FrameList.Insert | plugins/janus_auviousrecordplay.c:2147-2211 | linking a new packet keeps the list well formed, and the list becomes `Inserted(old list, p)` |
| FrameIndex.FrameList.Scan | plugins/janus_auviousrecordplay.c:2155-2198 | the backward scan finds the node at `InsertAt` |
| FrameIndex.FrameList.Prepend | plugins/janus_auviousrecordplay.c:2204-2208 | a packet placed before the head becomes the new head |
| FrameIndex.FrameList.LinkBetween | plugins/janus_auviousrecordplay.c:2158-2167 | a packet placed after an inner node is linked between it and its successor |
| FrameIndex.FrameList.Append | plugins/janus_auviousrecordplay.c:2162-2167 | a packet placed after the tail becomes the new tail |
| FrameIndex.Prescan | plugins/janus_auviousrecordplay.c:1948-2093 | the first loop accepts exactly when pass 1 does, and returns pass 1's clock and end |
| FrameIndex.Collect | plugins/janus_auviousrecordplay.c:2096-2214 | the second loop returns no list when there are no packets, otherwise a fresh well-formed list of `Build(packets)` |
| FrameIndex.GetFrames | plugins/janus_auviousrecordplay.c:1921-2229 | no list for a missing or rejected file, otherwise a fresh list holding `Frames(file)` |
| Playout.AudioKhz | plugins/janus_auviousrecordplay.c:2313-2316 | the audio clock is 8 kHz exactly for payload types 0, 8 and 9, otherwise 48 kHz |
| Playout.CDivMod | plugins/janus_auviousrecordplay.c:2349-2350 | C's division truncates toward zero and satisfies the division identity |
| Playout.GapNonNegative | plugins/janus_auviousrecordplay.c:2349-2350 | in a sorted list gaps are never negative, and equal timestamps give no gap |
| Playout.GapExamples | plugins/janus_auviousrecordplay.c:2414-2415 | 20 ms Opus and G.711 frames give a 20000 µs gap; a 3000-tick video step gives 33333 µs |
| Playout.Elapsed | plugins/janus_auviousrecordplay.c:2352-2359 | the microseconds passed are the difference of the two instants |
| Playout.AdvanceMoves | plugins/janus_auviousrecordplay.c:2363-2371 | a gap under a second moves the reference instant by the gap; a longer gap moves it by the gap less one µs per whole second |
| Playout.AdvanceLongGap | plugins/janus_auviousrecordplay.c:2363-2371 | a gap of 2.5 s moves the reference instant by 2499998 µs |
| Playout.PayloadTypeSet | plugins/janus_auviousrecordplay.c:2335 | rewriting the payload type replaces the 7 low bits of byte 1 and keeps every other byte |
| Playout.Relay | plugins/janus_auviousrecordplay.c:2330-2339 | a packet relays `len` bytes when the file holds them, on its own track |
| Playout.RelaysAt | plugins/janus_auviousrecordplay.c:2330-2339 | the i-th relayed packet is packet i |
| Playout.RelaysAppend | plugins/janus_auviousrecordplay.c:2330-2339 | relaying two lists one after the other relays their concatenation |
| Playout.BurstEnd | plugins/janus_auviousrecordplay.c:2439-2455 | a video burst runs exactly over the packets with the first packet's timestamp |
| Playout.BurstEndAt | plugins/janus_auviousrecordplay.c:2439-2455 | up to its end a burst continues exactly while the timestamp stays the same |
| Playout.TrackTurn | plugins/janus_auviousrecordplay.c:2323-2461 | one tick sends a contiguous run from the cursor: one packet for audio, a whole same-timestamp burst for video; when nothing is sent the cursor and the reference time stay |
| Playout.TrackTurnTiming | plugins/janus_auviousrecordplay.c:2323-2461 | the first packet goes at once; a later one goes once the gap less 5 ms has passed since the reference time |
| Playout.BurstIsOneTimestamp | plugins/janus_auviousrecordplay.c:2389-2461 | a video send transmits packets of one timestamp, and in a sorted list the next packet has a later one |
| Playout.Run | plugins/janus_auviousrecordplay.c:2317-2462 | a run of ticks leaves the cursor within the list |
| Playout.RunPlaysInOrder | plugins/janus_auviousrecordplay.c:2317-2462 | whatever the clock readings, a track sends a prefix of its list from the cursor in list order, each packet once |
| Playout.RunSnoc | plugins/janus_auviousrecordplay.c:2317-2462 | one more tick adds exactly that tick's turn to the run |
| Playout.OnTrackRelays | plugins/janus_auviousrecordplay.c:2339 | relays of one track are kept by that track's filter and dropped by the other's |
| Playout.ListWalk | plugins/janus_auviousrecordplay.c:2294-2316 | following `next` from the head of a well-formed list visits its packets in order |
| Playout.Track.constructor | plugins/janus_auviousrecordplay.c:2294-2316 | a track starts at the head of its list with its reference time set to now and nothing sent |
| Playout.Track.SendOne | plugins/janus_auviousrecordplay.c:2327-2341 | relaying the packet at the cursor appends its relay and moves the cursor one on |
| Playout.Track.Send | plugins/janus_auviousrecordplay.c:2327-2453 | a send relays one packet for audio, a whole burst for video, and moves the cursor past them |
| Playout.Track.SendBurst | plugins/janus_auviousrecordplay.c:2439-2453 | a video send relays the whole same-timestamp burst |
| Playout.Track.Turn | plugins/janus_auviousrecordplay.c:2323-2461 | one turn does what `TrackTurn` says, and relays exactly the packets it passes |
| Playout.TrackStep | plugins/janus_auviousrecordplay.c:2320-2461 | one loop iteration extends each track's relays by its turn |
| Playout.Tick | plugins/janus_auviousrecordplay.c:2320-2461 | one iteration sleeps exactly when neither track sent in the previous one, then takes both tracks' turns |
| Playout.Playout | plugins/janus_auviousrecordplay.c:2317-2462 | the loop relays, per track, exactly `Run` over its clock readings, and when it stops early for a live session both lists have been played to the end |
| Requests.Validate | plugins/janus_auviousrecordplay.c:323-339 | validation succeeds exactly when every parameter is accepted; 415 names a missing required key and 414 a present value of the wrong type or range |
| Requests.Unsigned32 | plugins/janus_auviousrecordplay.c:961-966 | a JSON integer stored in a 32-bit field is kept modulo 2^32, and unchanged when it fits |
| Requests.HandleMessageFailures | plugins/janus_auviousrecordplay.c:865-1003 | 499 exactly for an unknown or destroyed session, 411 for no message, 412 for a non-object, 413 for a valid name that is none of the known requests |
| Requests.NotBoth | plugins/janus_auviousrecordplay.c:916-981 | names that differ in length or in their first letter are never both matched |
| Requests.SyncNotAsync | plugins/janus_auviousrecordplay.c:916-981 | update, list and configure are none of the queued requests |
| Requests.QueuedExactly | plugins/janus_auviousrecordplay.c:978-986 | a message is queued exactly when its request is record, play, start, stop, record-generate-offer or record-process-answer |
| Requests.HandleMessageIgnoresCase | plugins/janus_auviousrecordplay.c:916-981 | request names that differ only in letter case get the same answer |
| Requests.ConfigureSettings | plugins/janus_auviousrecordplay.c:953-977 | a configure request succeeds exactly when its settings validate, and stores what it carries cut to 32 bits |
| Requests.AudioPayloadType | plugins/janus_auviousrecordplay.c:1397-1406 | a new recording's audio payload type is 0, 8, 9 or 111, and its clock is 8 kHz exactly for PCMU, PCMA and G.722 in any case |
| Requests.TrackFileName | plugins/janus_auviousrecordplay.c:1414-1433 | a track file name always fits its 256-byte buffer |
| Requests.GeneratedNameWhole | plugins/janus_auviousrecordplay.c:1419-1429 | a generated name for a 64-bit id is never cut |
| Requests.GeneratedNamesDistinct | plugins/janus_auviousrecordplay.c:1419-1429 | recordings with different ids get different generated track names |
| Requests.TrackNamesCollide | plugins/janus_auviousrecordplay.c:1416-1427 | a recording's audio and video tracks share a file name exactly when the given base name is at least 254 characters long |
| Registry.Recording.constructor | plugins/janus_auviousrecordplay.c:1370-1433 | a new recording has its payload types, one track file per codec, no offer, no viewers, is neither completed nor destroyed, and holds two references |
| Registry.Recording.Destroy | plugins/janus_auviousrecordplay.c:434-437 | destroying marks the recording destroyed and drops one reference only the first time |
| Registry.Recording.RemoveViewer | plugins/janus_auviousrecordplay.c:2491 | the viewer is removed once from the viewers list |
| Registry.RemoveFirstCounts | plugins/janus_auviousrecordplay.c:2491 | removal drops exactly one occurrence, and changes nothing when there is none |
| Registry.RemoveAfterAppend | plugins/janus_auviousrecordplay.c:1568 | a viewer that joined once and leaves restores the viewers list |
| Registry.PliInterval | plugins/janus_auviousrecordplay.c:1089 | the keyframe interval in µs is the millisecond setting cut to whole seconds, so always a whole number of seconds |
| Registry.RembPacing | plugins/janus_auviousrecordplay.c:1070-1085 | while ramping up every call sends a REMB of bitrate/startup and counts down; afterwards a REMB goes out every 5 s with the full bitrate |
| Registry.PliPacing | plugins/janus_auviousrecordplay.c:1086-1096 | a PLI goes out exactly when the interval has passed since the last one, and restarts that interval |
| Registry.Trace | plugins/janus_auviousrecordplay.c:1061-1096 | a run of feedback calls sends one outcome per call |
| Registry.RampUpTrace | plugins/janus_auviousrecordplay.c:1070-1081 | the i-th of the first `startup` calls sends a REMB of bitrate/(startup − i) |
| Registry.RembSpacing | plugins/janus_auviousrecordplay.c:1073-1085 | once ramping up is over, every REMB in a run of calls goes out at least 5 s after the previous REMB, and any two REMBs of the run are at least 5 s apart |
| Registry.Session.constructor | plugins/janus_auviousrecordplay.c:793-808 | a new session is inactive, idle, holds one reference, ramps up in 4 steps from now, at 1 Mbit/s with a 15 s keyframe interval |
| Registry.Session.Destroy | plugins/janus_auviousrecordplay.c:420-423 | destroying marks the session destroyed and drops one reference only the first time |
| Registry.Session.Configure | plugins/janus_auviousrecordplay.c:959-968 | configure stores the settings it carries and keeps the others |
| Registry.Session.SendRtcpFeedback | plugins/janus_auviousrecordplay.c:1061-1096 | feedback is sent for video only, and its timers advance by `FeedbackStep` |
| Registry.Session.Watch | plugins/janus_auviousrecordplay.c:1547-1568 | each track file is indexed by `get_frames`; with neither list the playout fails with 417 and nothing changes; otherwise the session watches the recording and joins its viewers |
| Registry.Session.StartPlayout | plugins/janus_auviousrecordplay.c:1025-1059 | on a destroyed session media setup does nothing; otherwise the session becomes active and not hanging up, and a playout thread starts exactly for a non-recorder session with a recording, at least one frame list, and every listed track's `.mjr` file opening; a started playout holds one more reference on the session and on the recording, a refused one holds none |
| Registry.Session.FinishPlayout | plugins/janus_auviousrecordplay.c:2462-2501 | the end of playout frees both lists, leaves the viewers list, and drops a reference on the recording and on the session |
| Registry.Registry.constructor | plugins/janus_auviousrecordplay.c:707 | the table starts empty |
| Registry.Registry.ListedExactly | plugins/janus_auviousrecordplay.c:929-946 | a recording is listed exactly when it is in the table and completed |
| Registry.Registry.DrawId | plugins/janus_auviousrecordplay.c:1357-1365 | the id chosen is the first draw that is nonzero and not taken |
| Registry.Registry.Create | plugins/janus_auviousrecordplay.c:1344-1438 | a taken requested id fails with 420 and nothing changes; otherwise a fresh recording under the requested or first free drawn id is filed, the session records it, and the list is unchanged |
| Registry.Registry.Remove | plugins/janus_auviousrecordplay.c:1176-1182 | removal takes the id out of the table, destroys that recording once, and leaves the others alone |
| Registry.Registry.Hangup | plugins/janus_auviousrecordplay.c:1184-1230 | hangup deactivates the session; only the first caller on a live session proceeds, and it closes the writers and removes its recording from the table; every recording left in the table is untouched, and a caller that does not proceed changes nothing else |
| Registry.Registry.Play | plugins/janus_auviousrecordplay.c:1482-1568 | an SDP in the request fails with 414; a restart or SDP update needs a playout session whose recording has an offer, else 418, and changes nothing; a missing, offerless or destroyed recording fails with 416 and nothing changes; otherwise a reference is taken and the session watches it (417 when neither track yields frames); only that recording's references and viewers may change, every other recording is untouched |
| Registry.RecordThenHangup | plugins/janus_auviousrecordplay.c:1344-1438 | recording and hanging up leaves the table as it was, with the recording destroyed and holding no references |
| Registry.PlayThenFinish | plugins/janus_auviousrecordplay.c:1482-2501 | a play request that succeeds is followed by a playout that starts and finishes; afterwards the viewers list and the session's references are as before, and the recording holds one more reference, the one the play request took (released by hangup, lines 1226-1227) |
| Registry.PlayOut | plugins/janus_auviousrecordplay.c:2238-2501 | a playout thread started for a watching session always starts, and at its end the thread's references on the session and on the recording are returned and the viewer has left |
| Registry.CreateThenPlay | plugins/janus_auviousrecordplay.c:1370-1545 | a recording just created has no offer, so a play request for it fails with 416 and leaves the viewer untouched |

## Left out

- I/O: files are byte sequences in a map from path to contents; `fopen` failing is a missing path. Clocks are parameters (`TimeVal` readings per tick). `g_usleep` is a flag on the tick.
- JSON decoding (`json_loads`) and codec matching (`janus_sdp_match_preferred_codec`) are oracles passed as functions.
- The random source is a sequence of draws; the caller guarantees it holds a free id.
- Gateway callbacks (`relay_rtp`, `push_event`, `close_pc`, `send_pli`/`send_remb` transport), locks, atomics, threads and the handler-thread queue are not modelled; operations are sequential.
- SDP handling is left out: offer generation and parsing, `sdp_version`/`sessid`, the restart path's SDP rewrite and its 418 on an unparsable offer, simulcast SSRCs, and the answer processing of record-generate-offer/record-process-answer beyond the shared id and creation code.
- The recorder itself (`janus_recorder` writing frames), the start/stop request bodies, plugin init/destroy, the configuration file, logging and dates are not part of this model.
- `completed` is never set to true anywhere in the plugin, so the list request always answers an empty list; the model keeps the field and the filter as written.
- FrameIndex.GetFrames: requires that the first info header fits in `prebuffer[1500]` (`Indexable`); the C code writes past the buffer for longer headers, and that undefined behaviour is not modelled.
- Container.Sniff: requires the same of the first record (`SniffOverrun`), for the same reason.
- Only the first 16 bytes of `prebuffer` are modelled, the part any reader inspects; stale bytes further on never matter.
- `offer` is never set to anything but NULL (lines 1374 and 1757); `generate_offer` (lines 596-620) is never called. So every play request for a recording answers 416; the model keeps the field and the check as written (`CreateThenPlay`).
- Session.StartPlayout: a failure to create the playout thread (lines 1048-1056, with its `close_pc`) is not modelled; neither is the thread's own recorder check (lines 2246-2252), which media setup already makes, nor the balanced pair of session references that media setup takes and gives back around the thread start (lines 1040 and 1058).
- A NULL track file name in the playout thread's `strstr` (lines 2265 and 2280) is undefined behaviour in C; the model treats such a track as one whose file does not open.
- The playout thread's 1500-byte read buffer for packets longer than 1500 bytes is not modelled; a relayed packet is the `len` bytes at its offset.
- The NULL `dir`/`filename` guards of `parse_codec` and `get_frames` are left out: strings are always present in the model.
- Frame list nodes are arena indices (`next`/`prev` as ints) rather than pointers, and freeing a list is not modelled.
- Pass 1 also logs the write time of each packet; that is left out, as it only feeds logging.
- Playout.Advance: modelled as written, including its drift of one µs per whole second of gap.
- Playout.Gap: the `uint64` subtraction of timestamps is modelled on sorted lists, where it never wraps.
- The playout thread's byte counter and the exact placement of its `gettimeofday` calls between tracks are abstracted into one reading per track per tick.
- Handle-to-session lookups and the `stopping`/`initialized` guards are folded into the `known` and `destroyed` inputs of `HandleMessage`.
- Requests.Validate: the body of `JANUS_VALIDATE_JSON_OBJECT` is not part of this model; its meaning is taken from the table flags (required, positive, non-empty) and the two error codes it reports.
- Recording ids are unbounded naturals; the 64-bit width is assumed only in the lemmas about generated names.
