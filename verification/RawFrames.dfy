/**
 srs_h264_write_raw_frames: raw H.264 in Annex B format becomes FLV video packets. Parameter sets are kept in the
 context and sent as a sequence header in front of the next coded frame.
 */
module RawFrames {
  import opened Bytes
  import opened KernelStream
  import opened AnnexB
  import opened RawAvc

  /** The H.264 part of Context. */
  datatype Context = Context(sps: seq<byte>, pps: seq<byte>, spsChanged: bool, ppsChanged: bool, sent: bool)

  const NEW_CONTEXT := Context([], [], false, false, false)

  datatype Error = NoError | DropBeforeSpsPps | DuplicatedSps | DuplicatedPps | NotPrefixed

  /** What goes out: a sequence header or a coded frame. */
  datatype Event = Header(sps: seq<byte>, pps: seq<byte>) | Coded(nal: seq<byte>)

  datatype Step = Step(ctx: Context, events: seq<Event>, error: Error)

  function IsSps(frame: seq<byte>): bool { frame != [] && NalType(frame) == NAL_SPS }

  function IsPps(frame: seq<byte>): bool { frame != [] && NalType(frame) == NAL_PPS }

  function IsCoded(frame: seq<byte>): bool { frame != [] && !IsSps(frame) && !IsPps(frame) }

  /** In the numbers of table 7-1 of ITU-T H.264. */
  lemma FrameKinds(frame: seq<byte>)
    ensures IsSps(frame) <==> frame != [] && frame[0] % 32 == 7
    ensures IsPps(frame) <==> frame != [] && frame[0] % 32 == 8
    ensures IsCoded(frame) <==> frame != [] && frame[0] % 32 != 7 && frame[0] % 32 != 8
  {
  }

  /** sps_demux leaves its result empty for an SPS of fewer than four bytes, without an error. */
  function KeptSps(frame: seq<byte>): seq<byte> { if |frame| < 4 then [] else frame }

  /** srs_write_h264_raw_frame; None is the assertion of mux_sequence_header. */
  function WriteFrame(c: Context, frame: seq<byte>): Option<Step>
    requires frame != []
  {
    if IsSps(frame) then
      var sps := KeptSps(frame);
      Some(if c.sps == sps then Step(c, [], DuplicatedSps) else Step(c.(sps := sps, spsChanged := true), [], NoError))
    else if IsPps(frame) then
      Some(if c.pps == frame then Step(c, [], DuplicatedPps)
          else Step(c.(pps := frame, ppsChanged := true), [], NoError))
    else if c.spsChanged || c.ppsChanged then
      if |c.sps| < 4 then None
      else Some(Step(c.(spsChanged := false, ppsChanged := false, sent := true), [Header(c.sps, c.pps), Coded(frame)],
                     NoError))
    else if c.sent then Some(Step(c, [Coded(frame)], NoError))
    else Some(Step(c, [], DropBeforeSpsPps))
  }

  predicate NonEmpty(frames: seq<seq<byte>>) { forall i :: 0 <= i < |frames| ==> frames[i] != [] }

  /** A run of frames: the known errors do not stop it, and the last one is the result. */
  function Run(c: Context, frames: seq<seq<byte>>): Option<Step>
    requires NonEmpty(frames)
  {
    if frames == [] then Some(Step(c, [], NoError))
    else
      var front, last := Run(c, frames[..|frames| - 1]), frames[|frames| - 1];
      if front == None then None
      else
        var s := WriteFrame(front.value.ctx, last);
        if s == None then None
        else Some(Step(s.value.ctx, front.value.events + s.value.events,
                       if s.value.error == NoError then front.value.error else s.value.error))
  }

  // ---------- what should go out ----------

  /** The latest SPS, or nothing without one or when it is too short. */
  function LatestSps(frames: seq<seq<byte>>): (r: seq<byte>)
    ensures r == [] || |r| >= 4
  {
    if frames == [] then []
    else if IsSps(frames[|frames| - 1]) then KeptSps(frames[|frames| - 1])
    else LatestSps(frames[..|frames| - 1])
  }

  function LatestPps(frames: seq<seq<byte>>): seq<byte> {
    if frames == [] then []
    else if IsPps(frames[|frames| - 1]) then frames[|frames| - 1]
    else LatestPps(frames[..|frames| - 1])
  }

  /** A parameter set that the context keeps has come. */
  function AnySet(frames: seq<seq<byte>>): bool {
    frames != []
    && (AnySet(frames[..|frames| - 1])
        || IsPps(frames[|frames| - 1]) || (IsSps(frames[|frames| - 1]) && |frames[|frames| - 1]| >= 4))
  }

  /** The coded frames that came when there was an SPS. */
  function Decodable(frames: seq<seq<byte>>): seq<seq<byte>> {
    if frames == [] then []
    else
      var front, last := frames[..|frames| - 1], frames[|frames| - 1];
      Decodable(front) + (if IsCoded(last) && LatestSps(front) != [] then [last] else [])
  }

  function CodedFrames(events: seq<Event>): seq<seq<byte>> {
    if events == [] then []
    else
      var last := events[|events| - 1];
      CodedFrames(events[..|events| - 1]) + (if last.Coded? then [last.nal] else [])
  }

  /** The last header among the events. */
  function LastHeader(events: seq<Event>): Option<Event> {
    if events == [] then None
    else if events[|events| - 1].Header? then Some(events[|events| - 1])
    else LastHeader(events[..|events| - 1])
  }

  /** No coded frame before a header. */
  predicate HeaderFirst(events: seq<Event>) {
    forall i :: 0 <= i < |events| && events[i].Coded? ==> LastHeader(events[..i]).Some?
  }

  /** The context knows the latest sets, and the last header is the one to have when nothing has changed. */
  predicate InStep(s: Step, frames: seq<seq<byte>>) {
    var c := s.ctx;
    && c.sps == LatestSps(frames) && c.pps == LatestPps(frames)
    && (c.sent || c.spsChanged || c.ppsChanged <==> AnySet(frames))
    && (c.sent <==> LastHeader(s.events).Some?)
    && (c.sent && !c.spsChanged && !c.ppsChanged ==> |c.sps| >= 4 && LastHeader(s.events) == Some(Header(c.sps, c.pps)))
    && (!AnySet(frames) ==> c.sps == [] && c.pps == [])
    && HeaderFirst(s.events)
    && CodedFrames(s.events) == Decodable(frames)
  }

  lemma EventsSnoc(events: seq<Event>, e: Event)
    ensures CodedFrames(events + [e]) == CodedFrames(events) + (if e.Coded? then [e.nal] else [])
    ensures LastHeader(events + [e]) == if e.Header? then Some(e) else LastHeader(events)
    ensures HeaderFirst(events) && (e.Coded? ==> LastHeader(events).Some?) ==> HeaderFirst(events + [e])
  {
    var all := events + [e];
    assert all[..|events|] == events;
    assert forall i :: 0 <= i <= |events| ==> all[..i] == events[..i];
    assert events[..|events|] == events;
  }

  lemma FramesSnoc(frames: seq<seq<byte>>, frame: seq<byte>)
    ensures LatestSps(frames + [frame]) == if IsSps(frame) then KeptSps(frame) else LatestSps(frames)
    ensures LatestPps(frames + [frame]) == if IsPps(frame) then frame else LatestPps(frames)
    ensures AnySet(frames + [frame]) == (AnySet(frames) || IsPps(frame) || (IsSps(frame) && |frame| >= 4))
    ensures Decodable(frames + [frame])
            == Decodable(frames) + (if IsCoded(frame) && LatestSps(frames) != [] then [frame] else [])
  {
    assert (frames + [frame])[..|frames|] == frames;
  }

  /** One frame keeps the step, and aborts exactly when a parameter set has come but no SPS is there. */
  lemma FrameInStep(s: Step, frames: seq<seq<byte>>, frame: seq<byte>)
    requires InStep(s, frames) && frame != []
    ensures WriteFrame(s.ctx, frame) == None <==> IsCoded(frame) && AnySet(frames) && LatestSps(frames) == []
    ensures WriteFrame(s.ctx, frame).Some? ==>
              var t := WriteFrame(s.ctx, frame).value;
              forall e: Error :: InStep(Step(t.ctx, s.events + t.events, e), frames + [frame])
  {
    hide CodedFrames, LastHeader, HeaderFirst, LatestSps, LatestPps, AnySet, Decodable;
    FramesSnoc(frames, frame);
    var c := s.ctx;
    assert s.events + [] == s.events;
    if IsCoded(frame) && (c.spsChanged || c.ppsChanged || c.sent) && (c.spsChanged || c.ppsChanged ==> |c.sps| >= 4) {
      if c.spsChanged || c.ppsChanged {
        EventsSnoc(s.events, Header(c.sps, c.pps));
        EventsSnoc(s.events + [Header(c.sps, c.pps)], Coded(frame));
        assert s.events + [Header(c.sps, c.pps), Coded(frame)] == s.events + [Header(c.sps, c.pps)] + [Coded(frame)];
      } else {
        EventsSnoc(s.events, Coded(frame));
      }
    }
  }

  /** For every run that goes on. */
  lemma {:induction false} RunInStep(frames: seq<seq<byte>>)
    requires NonEmpty(frames)
    ensures Run(NEW_CONTEXT, frames).Some? ==> InStep(Run(NEW_CONTEXT, frames).value, frames)
  {
    hide WriteFrame;
    if frames != [] {
      hide InStep;
      var front, last := frames[..|frames| - 1], frames[|frames| - 1];
      RunInStep(front);
      assert front + [last] == frames;
      if Run(NEW_CONTEXT, front).Some? {
        FrameInStep(Run(NEW_CONTEXT, front).value, front, last);
      }
    }
  }

  /** A coded frame that the assertion of mux_sequence_header meets. */
  predicate Asserts(frames: seq<seq<byte>>, i: nat)
    requires i < |frames|
  {
    IsCoded(frames[i]) && AnySet(frames[..i]) && LatestSps(frames[..i]) == []
  }

  /** A run is free of assertions exactly when no coded frame comes after a parameter set while there is no SPS. */
  lemma {:induction false} AssertionFreeExactly(frames: seq<seq<byte>>)
    requires NonEmpty(frames)
    ensures Run(NEW_CONTEXT, frames).Some? <==> forall i :: 0 <= i < |frames| ==> !Asserts(frames, i)
  {
    hide WriteFrame, InStep, AnySet, LatestSps, IsCoded;
    if frames != [] {
      var n := |frames| - 1;
      var front, last := frames[..n], frames[n];
      assert front + [last] == frames;
      AssertionFreeExactly(front);
      RunInStep(front);
      assert forall i :: 0 <= i < n ==> frames[..i] == front[..i];
      assert forall i :: 0 <= i < n ==> Asserts(frames, i) == Asserts(front, i);
      if Run(NEW_CONTEXT, front).Some? {
        FrameInStep(Run(NEW_CONTEXT, front).value, front, last);
        assert Asserts(frames, n) == (WriteFrame(Run(NEW_CONTEXT, front).value.ctx, last) == None);
      }
    }
  }

  /** The run up to frame `i` writes a prefix of the events. */
  lemma {:induction false} RunPrefix(c: Context, frames: seq<seq<byte>>, i: nat)
    requires NonEmpty(frames) && i <= |frames| && Run(c, frames).Some?
    ensures var r := Run(c, frames[..i]); r.Some? && r.value.events <= Run(c, frames).value.events
    decreases |frames|
  {
    hide WriteFrame;
    if i < |frames| {
      var front := frames[..|frames| - 1];
      RunPrefix(c, front, i);
      assert front[..i] == frames[..i];
    } else {
      assert frames[..i] == frames;
    }
  }

  lemma RunSnoc(c: Context, front: seq<seq<byte>>, last: seq<byte>)
    requires NonEmpty(front) && last != []
    ensures NonEmpty(front + [last])
    ensures Run(c, front + [last])
            == if Run(c, front) == None then None
               else
                 var s := WriteFrame(Run(c, front).value.ctx, last);
                 if s == None then None
                 else Some(Step(s.value.ctx, Run(c, front).value.events + s.value.events,
                                if s.value.error == NoError then Run(c, front).value.error else s.value.error))
  {
    hide WriteFrame;
    assert (front + [last])[..|front|] == front && (front + [last])[|front|] == last;
  }

  lemma RunNothing(c: Context)
    ensures Run(c, []) == Some(Step(c, [], NoError))
  {
  }

  lemma EventsJoin(a: seq<Event>, b: seq<Event>, c: seq<Event>)
    ensures (a + b) + c == a + (b + c) && a + [] == a
  {
  }

  /** Several calls of srs_h264_write_raw_frames are one run over all their frames. */
  lemma {:induction false} RunAppend(c: Context, a: seq<seq<byte>>, b: seq<seq<byte>>)
    requires NonEmpty(a) && NonEmpty(b) && Run(c, a).Some? && Run(Run(c, a).value.ctx, b).Some?
    ensures NonEmpty(a + b) && Run(c, a + b).Some?
    ensures var first, all := Run(c, a).value, Run(c, a + b).value;
            var second := Run(first.ctx, b).value;
            all.ctx == second.ctx && all.events == first.events + second.events
    decreases |b|
  {
    hide WriteFrame, Run;
    var first := Run(c, a).value;
    if b == [] {
      RunNothing(first.ctx);
      EventsJoin(first.events, [], []);
      assert a + b == a;
    } else {
      var front, last := b[..|b| - 1], b[|b| - 1];
      assert front + [last] == b && (a + front) + [last] == a + b;
      RunSnoc(first.ctx, front, last);
      RunAppend(c, a, front);
      RunSnoc(c, a + front, last);
      var second := Run(first.ctx, front).value;
      EventsJoin(first.events, second.events, WriteFrame(second.ctx, last).value.events);
    }
  }

  lemma NextOfRun(c: Context, all: seq<seq<byte>>, done: seq<seq<byte>>, frame: seq<byte>, rest: seq<seq<byte>>)
    requires all == done + ([frame] + rest) && NonEmpty(all) && Run(c, all).Some?
    ensures frame != [] && NonEmpty(done + [frame]) && Run(c, done + [frame]).Some? && all == (done + [frame]) + rest
  {
    assert all[|done|] == frame;
    assert all[..|done| + 1] == done + [frame];
    RunPrefix(c, all, |done| + 1);
  }

  /** Main result: in every assertion-free run the coded frames written are those that had an SPS, in order; none
      comes before a header; and behind the last header before coded frame `i` stand the latest SPS and PPS. */
  lemma CodedFramesFollowTheirSets(frames: seq<seq<byte>>, i: nat)
    requires NonEmpty(frames) && Run(NEW_CONTEXT, frames).Some?
    requires i < |frames| && IsCoded(frames[i]) && LatestSps(frames[..i]) != []
    ensures var events := Run(NEW_CONTEXT, frames).value.events;
            && HeaderFirst(events) && CodedFrames(events) == Decodable(frames)
            && exists k :: 0 <= k < |events| && events[k] == Coded(frames[i])
                 && CodedFrames(events[..k]) == Decodable(frames[..i])
                 && LastHeader(events[..k]) == Some(Header(LatestSps(frames[..i]), LatestPps(frames[..i])))
  {
    hide HeaderFirst, CodedFrames, LastHeader, Decodable, LatestSps, LatestPps, AnySet, WriteFrame, Run, IsCoded;
    RunInStep(frames);
    var front, next := frames[..i], frames[..i + 1];
    assert next == front + [frames[i]];
    RunSnoc(NEW_CONTEXT, front, frames[i]);
    RunPrefix(NEW_CONTEXT, frames, i);
    RunPrefix(NEW_CONTEXT, frames, i + 1);
    RunInStep(front);
    var before, after := Run(NEW_CONTEXT, front).value, Run(NEW_CONTEXT, next).value;
    var events := Run(NEW_CONTEXT, frames).value.events;
    var k := |after.events| - 1;
    LastEvent(before, front, frames[i]);
    assert events[..k] == after.events[..k];
    assert events[k] == Coded(frames[i]);
  }

  /** Writing a coded frame: it is the last event, behind the right header. */
  lemma LastEvent(s: Step, frames: seq<seq<byte>>, frame: seq<byte>)
    requires InStep(s, frames) && frame != [] && IsCoded(frame) && LatestSps(frames) != []
    requires WriteFrame(s.ctx, frame).Some?
    ensures var all := s.events + WriteFrame(s.ctx, frame).value.events;
            && all != [] && all[|all| - 1] == Coded(frame)
            && CodedFrames(all[..|all| - 1]) == Decodable(frames)
            && LastHeader(all[..|all| - 1]) == Some(Header(LatestSps(frames), LatestPps(frames)))
  {
    hide CodedFrames, LastHeader, HeaderFirst, LatestPps, AnySet, Decodable;
    var c, header := s.ctx, Header(s.ctx.sps, s.ctx.pps);
    var all := s.events + WriteFrame(c, frame).value.events;
    if c.spsChanged || c.ppsChanged {
      EventsSnoc(s.events, header);
      assert all[..|all| - 1] == s.events + [header];
    } else {
      assert all[..|all| - 1] == s.events;
    }
  }

  // ---------- exactly what goes out, and which error comes back ----------

  /** A parameter set that differs from the latest one of its kind. */
  predicate IsNews(front: seq<seq<byte>>, frame: seq<byte>) {
    (IsSps(frame) && KeptSps(frame) != LatestSps(front)) || (IsPps(frame) && frame != LatestPps(front))
  }

  /** There was news since the last coded frame that went out. */
  predicate News(frames: seq<seq<byte>>) {
    frames != []
    && var front, last := frames[..|frames| - 1], frames[|frames| - 1];
       IsNews(front, last) || (News(front) && !(IsCoded(last) && LatestSps(front) != []))
  }

  /** Every coded frame that has an SPS, and in front of it a header exactly when there is news. */
  function ToSend(frames: seq<seq<byte>>): seq<Event> {
    if frames == [] then []
    else
      var front, last := frames[..|frames| - 1], frames[|frames| - 1];
      ToSend(front)
      + (if !IsCoded(last) || LatestSps(front) == [] then []
         else (if News(front) then [Header(LatestSps(front), LatestPps(front))] else []) + [Coded(last)])
  }

  /** What is wrong with a frame: a parameter set that is there already, or a coded frame before all sets. */
  function ErrorOf(front: seq<seq<byte>>, frame: seq<byte>): Error {
    if IsSps(frame) && KeptSps(frame) == LatestSps(front) then DuplicatedSps
    else if IsPps(frame) && frame == LatestPps(front) then DuplicatedPps
    else if IsCoded(frame) && !AnySet(front) then DropBeforeSpsPps
    else NoError
  }

  /** The last error of the frames. */
  function LastError(frames: seq<seq<byte>>): Error {
    if frames == [] then NoError
    else
      var front, last := frames[..|frames| - 1], frames[|frames| - 1];
      if ErrorOf(front, last) != NoError then ErrorOf(front, last) else LastError(front)
  }

  lemma SendSnoc(frames: seq<seq<byte>>, frame: seq<byte>)
    ensures News(frames + [frame]) == (IsNews(frames, frame) || (News(frames) && !(IsCoded(frame) && LatestSps(frames) != [])))
    ensures ToSend(frames + [frame])
            == ToSend(frames)
               + (if !IsCoded(frame) || LatestSps(frames) == [] then []
                  else (if News(frames) then [Header(LatestSps(frames), LatestPps(frames))] else []) + [Coded(frame)])
    ensures LastError(frames + [frame])
            == if ErrorOf(frames, frame) != NoError then ErrorOf(frames, frame) else LastError(frames)
  {
    hide IsNews, LatestSps, LatestPps, IsCoded, ErrorOf;
    assert (frames + [frame])[..|frames|] == frames;
  }

  /** One frame, with a context that knows the frames before. */
  lemma FrameSends(s: Step, frames: seq<seq<byte>>, frame: seq<byte>)
    requires InStep(s, frames) && frame != [] && (s.ctx.spsChanged || s.ctx.ppsChanged <==> News(frames))
    requires WriteFrame(s.ctx, frame).Some?
    ensures var t := WriteFrame(s.ctx, frame).value;
            && t.error == ErrorOf(frames, frame)
            && (t.ctx.spsChanged || t.ctx.ppsChanged
                <==> IsNews(frames, frame) || (News(frames) && !(IsCoded(frame) && LatestSps(frames) != [])))
            && t.events
               == if !IsCoded(frame) || LatestSps(frames) == [] then []
                  else (if News(frames) then [Header(LatestSps(frames), LatestPps(frames))] else []) + [Coded(frame)]
  {
    hide CodedFrames, LastHeader, HeaderFirst, LatestSps, LatestPps, AnySet, Decodable, News;
  }

  lemma NothingToSend()
    ensures !News([]) && ToSend([]) == [] && LastError([]) == NoError
  {
  }

  /** Main result: in every assertion-free run exactly every coded frame that has an SPS goes out, a header goes in front
      of it exactly when a parameter set has changed since the last one, and the result is the last error. */
  lemma {:induction false} SendsExactly(frames: seq<seq<byte>>)
    requires NonEmpty(frames) && Run(NEW_CONTEXT, frames).Some?
    ensures var r := Run(NEW_CONTEXT, frames).value;
            && r.events == ToSend(frames) && r.error == LastError(frames)
            && (r.ctx.spsChanged || r.ctx.ppsChanged <==> News(frames))
    decreases |frames|
  {
    hide WriteFrame, InStep, News, ToSend, LastError, IsNews, ErrorOf, LatestSps, LatestPps, IsCoded, Run;
    RunNothing(NEW_CONTEXT);
    NothingToSend();
    if frames != [] {
      var front, last := frames[..|frames| - 1], frames[|frames| - 1];
      assert front + [last] == frames;
      RunSnoc(NEW_CONTEXT, front, last);
      SendsExactly(front);
      RunInStep(front);
      FrameSends(Run(NEW_CONTEXT, front).value, front, last);
      SendSnoc(front, last);
    }
  }

  // ---------- the methods ----------

  /** The FLV body of an event. */
  function EventBody(e: Event, dts: int, pts: int): seq<byte>
    requires e.Header? ==> |e.sps| >= 4
    requires e.Coded? ==> e.nal != []
  {
    match e
    case Header(sps, pps) => FlvBody(FRAME_KEY, AVC_SEQUENCE_HEADER, dts, pts, SequenceHeader(sps, pps))
    case Coded(nal) => FlvBody(if NalType(nal) == NAL_IDR then FRAME_KEY else FRAME_INTER, AVC_NALU, dts, pts,
                               LengthPrefixed(nal))
  }

  datatype Packet = Packet(dts: int, body: seq<byte>)

  function Packets(events: seq<Event>, dts: int, pts: int): seq<Packet>
    requires forall i :: 0 <= i < |events| ==> (events[i].Header? ==> |events[i].sps| >= 4)
                                               && (events[i].Coded? ==> events[i].nal != [])
  {
    seq(|events|, i requires 0 <= i < |events| => Packet(dts, EventBody(events[i], dts, pts)))
  }

  class RtmpContext {
    var h264Sps: seq<byte>
    var h264Pps: seq<byte>
    var h264SpsChanged: bool
    var h264PpsChanged: bool
    var h264SpsPpsSent: bool
    /** What srs_rtmp_write_packet was given; every write succeeds. */
    var packets: seq<Packet>
    /** The same as events. */
    ghost var events: seq<Event>

    constructor ()
      ensures View() == NEW_CONTEXT && packets == [] && events == []
    {
      h264Sps, h264Pps := [], [];
      h264SpsChanged, h264PpsChanged, h264SpsPpsSent := false, false, false;
      packets := [];
      events := [];
    }

    ghost function View(): Context
      reads this
    {
      Context(h264Sps, h264Pps, h264SpsChanged, h264PpsChanged, h264SpsPpsSent)
    }

    method WriteIpbFrame(frame: seq<byte>, dts: int, pts: int) returns (error: Error)
      requires frame != []
      modifies this`packets, this`events
      ensures if h264SpsPpsSent then
                error == NoError && events == old(events) + [Coded(frame)]
                && packets == old(packets) + [Packet(dts, EventBody(Coded(frame), dts, pts))]
              else error == DropBeforeSpsPps && events == old(events) && packets == old(packets)
    {
      if !h264SpsPpsSent {
        return DropBeforeSpsPps;
      }
      var frameType := if NalType(frame) == NAL_IDR then FRAME_KEY else FRAME_INTER;
      var ibp := MuxIpbFrame(frame);
      packets := packets + [Packet(dts, FlvBody(frameType, AVC_NALU, dts, pts, ibp))];
      events := events + [Coded(frame)];
      error := NoError;
    }

    method WriteSpsPps(dts: int, pts: int)
      requires h264SpsChanged || h264PpsChanged ==> |h264Sps| >= 4
      modifies this`h264SpsChanged, this`h264PpsChanged, this`h264SpsPpsSent, this`packets, this`events
      ensures if old(h264SpsChanged || h264PpsChanged) then
                View() == old(View()).(spsChanged := false, ppsChanged := false, sent := true)
                && events == old(events) + [Header(h264Sps, h264Pps)]
                && packets == old(packets) + [Packet(dts, EventBody(Header(h264Sps, h264Pps), dts, pts))]
              else View() == old(View()) && events == old(events) && packets == old(packets)
    {
      if !h264SpsChanged && !h264PpsChanged {
        return;
      }
      var sh := MuxSequenceHeader(h264Sps, h264Pps);
      h264SpsChanged := false;
      h264PpsChanged := false;
      h264SpsPpsSent := true;
      packets := packets + [Packet(dts, FlvBody(FRAME_KEY, AVC_SEQUENCE_HEADER, dts, pts, sh))];
      events := events + [Header(h264Sps, h264Pps)];
    }

    /** The events written and the packets written agree. */
    ghost predicate Wrote(before: seq<Event>, packetsBefore: seq<Packet>, more: seq<Event>, dts: int, pts: int)
      reads this
    {
      && (forall i :: 0 <= i < |more| ==>
            (more[i].Header? ==> |more[i].sps| >= 4) && (more[i].Coded? ==> more[i].nal != []))
      && events == before + more && packets == packetsBefore + Packets(more, dts, pts)
    }

    method WriteRawFrame(frame: seq<byte>, dts: int, pts: int) returns (error: Error)
      requires frame != [] && WriteFrame(View(), frame).Some?
      modifies this
      ensures var s := WriteFrame(old(View()), frame).value;
              View() == s.ctx && error == s.error && Wrote(old(events), old(packets), s.events, dts, pts)
    {
      hide SequenceHeader, LengthPrefixed, FlvBody;
      if frame[0] % 32 == NAL_SPS {
        var sps: seq<byte> := [];
        if |frame| >= 4 {
          sps := frame;
        }
        if h264Sps == sps {
          return DuplicatedSps;
        }
        h264SpsChanged := true;
        h264Sps := sps;
        return NoError;
      }
      if frame[0] % 32 == NAL_PPS {
        if h264Pps == frame {
          return DuplicatedPps;
        }
        h264PpsChanged := true;
        h264Pps := frame;
        return NoError;
      }
      WriteSpsPps(dts, pts);
      error := WriteIpbFrame(frame, dts, pts);
    }

    /** The frames `done` were written since the context was `start`. */
    ghost predicate Progress(start: Context, eventsBefore: seq<Event>, packetsBefore: seq<Packet>, done: seq<seq<byte>>,
                             error: Error, dts: int, pts: int)
      reads this
    {
      && NonEmpty(done) && Run(start, done).Some?
      && var s := Run(start, done).value;
         View() == s.ctx && error == s.error && Wrote(eventsBefore, packetsBefore, s.events, dts, pts)
    }

    /** One frame of the loop; known errors are kept and do not stop it. */
    method WriteNext(frame: seq<byte>, dts: int, pts: int, before: Error, ghost start: Context,
                     ghost eventsBefore: seq<Event>, ghost packetsBefore: seq<Packet>, ghost done: seq<seq<byte>>)
      returns (error: Error)
      requires Progress(start, eventsBefore, packetsBefore, done, before, dts, pts)
      requires frame != [] && NonEmpty(done + [frame]) && Run(start, done + [frame]).Some?
      modifies this
      ensures Progress(start, eventsBefore, packetsBefore, done + [frame], error, dts, pts)
    {
      hide WriteFrame, EventBody;
      assert (done + [frame])[..|done|] == done;
      ghost var s := Run(start, done).value;
      error := before;
      var e := WriteRawFrame(frame, dts, pts);
      if e != NoError {
        error := e;
      }
      ghost var more := WriteFrame(s.ctx, frame).value.events;
      PacketsAppend(s.events, more, dts, pts);
      assert packetsBefore + Packets(s.events, dts, pts) + Packets(more, dts, pts)
             == packetsBefore + (Packets(s.events, dts, pts) + Packets(more, dts, pts));
      assert eventsBefore + s.events + more == eventsBefore + (s.events + more);
    }

    /** srs_h264_write_raw_frames on a buffer: the frames between its start codes, empty ones skipped. */
    method WriteRawFrames(data: array<byte>, dts: int, pts: int) returns (error: Error)
      requires data.Length > 0
      requires StartCode(data[..], 0) > 0 ==>
                 var frames := NonEmptyFrames(Split(data[..], 0));
                 NonEmpty(frames) && Run(View(), frames).Some?
      modifies this
      ensures StartCode(data[..], 0) == 0 ==>
                error == NotPrefixed && View() == old(View()) && events == old(events) && packets == old(packets)
      ensures StartCode(data[..], 0) > 0 ==>
                Progress(old(View()), old(events), old(packets), NonEmptyFrames(Split(data[..], 0)), error, dts, pts)
    {
      hide StartCode, Split, WriteFrame, NonEmptyFrames, NonEmpty, Run, Progress, Remaining;
      var stream := new SrsStream();
      var ok := stream.Initialize(data, data.Length);
      error := NoError;
      ghost var d, start, eventsBefore, packetsBefore := data[..], View(), events, packets;
      ghost var done: seq<seq<byte>> := [];
      ghost var all := if StartCode(d, 0) > 0 then NonEmptyFrames(Split(d, 0)) else [];
      NothingDone(start, dts, pts);
      if StartCode(d, 0) > 0 {
        AllRemain(d);
      }
      while !stream.Empty()
        invariant stream.Valid() && stream.Data() == d && stream.p <= stream.nbBytes == |d| && fresh(stream)
        invariant StartCode(d, 0) == 0 ==>
                    stream.p == 0 && View() == start && events == eventsBefore && packets == packetsBefore
        invariant StartCode(d, 0) > 0 ==>
                    && Remaining(d, stream.p, done, all)
                    && Progress(start, eventsBefore, packetsBefore, done, error, dts, pts)
        decreases |d| - stream.p
      {
        ghost var pos := stream.p;
        var demuxed, frame := AnnexbDemux(stream);
        if !demuxed {
          RemainingAtStart(d, pos, done, all);
          return NotPrefixed;
        }
        NextRemaining(start, d, pos, stream.p, done, frame, all);
        if |frame| <= 0 {
          continue;
        }
        error := WriteNext(frame, dts, pts, error, start, eventsBefore, packetsBefore, done);
        done := done + [frame];
      }
      NoneRemain(d, stream.p, done, all);
    }

    lemma NothingDone(start: Context, dts: int, pts: int)
      requires start == View()
      ensures Progress(start, events, packets, [], NoError, dts, pts)
    {
      assert events + [] == events && packets + [] == packets;
      assert Packets([], dts, pts) == [];
    }
  }

  /** `done` and the frames from `pos` on are `all`. */
  ghost predicate Remaining(d: seq<byte>, pos: nat, done: seq<seq<byte>>, all: seq<seq<byte>>) {
    AtStart(d, pos) && all == done + NonEmptyFrames(Split(d, pos))
  }

  lemma AllRemain(d: seq<byte>)
    requires StartCode(d, 0) > 0
    ensures |d| > 0 && Remaining(d, 0, [], NonEmptyFrames(Split(d, 0)))
  {
    assert |d| > 0;
    hide Split, NonEmptyFrames;
    assert [] + NonEmptyFrames(Split(d, 0)) == NonEmptyFrames(Split(d, 0));
  }

  lemma RemainingAtStart(d: seq<byte>, pos: nat, done: seq<seq<byte>>, all: seq<seq<byte>>)
    ensures Remaining(d, pos, done, all) ==> AtStart(d, pos)
  {
  }

  lemma NoneRemain(d: seq<byte>, pos: nat, done: seq<seq<byte>>, all: seq<seq<byte>>)
    ensures Remaining(d, pos, done, all) && pos >= |d| ==> done == all
  {
    if Remaining(d, pos, done, all) && pos >= |d| {
      assert NonEmptyFrames(Split(d, pos)) == [];
      assert done + [] == done;
    }
  }

  lemma NextRemaining(c: Context, d: seq<byte>, pos: nat, next: nat, done: seq<seq<byte>>, frame: seq<byte>,
                      all: seq<seq<byte>>)
    requires AtStart(d, pos) && AtStart(d, next) && pos < |d|
    requires Split(d, pos) == [Piece(StartCode(d, pos), frame)] + Split(d, next)
    requires StartCode(d, 0) > 0 ==> NonEmpty(all) && Run(c, all).Some?
    ensures Remaining(d, pos, done, all) && frame == [] ==> Remaining(d, next, done, all)
    ensures StartCode(d, 0) > 0 && Remaining(d, pos, done, all) && frame != [] ==>
              && Remaining(d, next, done + [frame], all)
              && NonEmpty(done + [frame]) && Run(c, done + [frame]).Some?
  {
    hide Split, StartCode, NonEmpty, Run, NonEmptyFrames;
    NonEmptyCons(Piece(StartCode(d, pos), frame), Split(d, next));
    if StartCode(d, 0) > 0 && Remaining(d, pos, done, all) && frame != [] {
      NextOfRun(c, all, done, frame, NonEmptyFrames(Split(d, next)));
    }
  }

  lemma PacketsAppend(a: seq<Event>, b: seq<Event>, dts: int, pts: int)
    requires forall i :: 0 <= i < |a| ==> (a[i].Header? ==> |a[i].sps| >= 4) && (a[i].Coded? ==> a[i].nal != [])
    requires forall i :: 0 <= i < |b| ==> (b[i].Header? ==> |b[i].sps| >= 4) && (b[i].Coded? ==> b[i].nal != [])
    ensures Packets(a + b, dts, pts) == Packets(a, dts, pts) + Packets(b, dts, pts)
  {
    hide EventBody;
  }

  // ---------- what a player gets ----------

  /** A packet shows its event: read as a player does, its decoding time and composition time give `pts` exactly when
      the difference fits 24 signed bits, it is AVC, a sequence header or NAL units, a key frame exactly for a header
      or an IDR slice, and behind that come the parameter sets (when a positive int16_t holds their sizes) or the NAL
      unit. */
  predicate Plays(p: Packet, e: Event, dts: int, pts: int)
    requires e.Header? ==> |e.sps| >= 4
    requires e.Coded? ==> e.nal != []
  {
    && ReadVideoBody(p.body).Some? && p.dts == dts
    && var b := ReadVideoBody(p.body).value;
       && (p.dts + b.cts == pts <==> -0x80_0000 <= pts - dts < 0x80_0000)
       && b.codec == 7 && b.packetType == (if e.Header? then 0 else 1)
       && b.frameType == (if e.Header? || e.nal[0] % 32 == 5 then 1 else 2)
       && (e.Header? ==>
             (ReadSequenceHeader(b.data) == Some(AvcConfig(e.sps[1], e.sps[3], 3, e.sps, e.pps))
              <==> |e.sps| < 0x8000 && 0 < |e.pps| < 0x8000))
       && (e.Coded? && |e.nal| < 0x1_0000_0000 ==> ReadPrefixed(b.data) == Some([e.nal]))
  }

  lemma EventPlays(e: Event, dts: int, pts: int)
    requires e.Header? ==> |e.sps| >= 4
    requires e.Coded? ==> e.nal != []
    ensures Plays(Packet(dts, EventBody(e, dts, pts)), e, dts, pts)
  {
    CompositionTimeExactly(dts, pts);
    if e.Header? {
      VideoBodyReads(FRAME_KEY, AVC_SEQUENCE_HEADER, dts, pts, SequenceHeader(e.sps, e.pps));
      SequenceHeaderRoundTrip(e.sps, e.pps);
    } else {
      var frameType := if NalType(e.nal) == NAL_IDR then FRAME_KEY else FRAME_INTER;
      VideoBodyReads(frameType, AVC_NALU, dts, pts, LengthPrefixed(e.nal));
      if |e.nal| < 0x1_0000_0000 {
        OneNal(e.nal);
      }
    }
    hide FlvBody, ReadVideoBody, SequenceHeader, ReadSequenceHeader, LengthPrefixed, ReadPrefixed, Signed24;
  }

  lemma OneNal(nal: seq<byte>)
    requires |nal| < 0x1_0000_0000
    ensures ReadPrefixed(LengthPrefixed(nal)) == Some([nal])
  {
    ReadPrefixedOne(nal, []);
    assert LengthPrefixed(nal) + [] == LengthPrefixed(nal);
    assert ReadPrefixed([]) == Some([]) && [nal] + [] == [nal];
    hide LengthPrefixed;
  }

  /** One call of srs_h264_write_raw_frames, by its non-empty frames. */
  datatype Call = Call(frames: seq<seq<byte>>, dts: int, pts: int)

  /** A packet that was sent, what it stands for, and in which call. */
  datatype Sent = Sent(packet: Packet, event: Event, call: nat)

  predicate CallsNonEmpty(calls: seq<Call>) { forall i :: 0 <= i < |calls| ==> NonEmpty(calls[i].frames) }

  lemma {:induction false} EventsAreWhole(c: Context, frames: seq<seq<byte>>)
    requires NonEmpty(frames) && Run(c, frames).Some?
    ensures var events := Run(c, frames).value.events;
            forall i :: 0 <= i < |events| ==>
              (events[i].Header? ==> |events[i].sps| >= 4) && (events[i].Coded? ==> events[i].nal != [])
    decreases |frames|
  {
    if frames != [] {
      EventsAreWhole(c, frames[..|frames| - 1]);
    }
  }

  function SentIn(events: seq<Event>, dts: int, pts: int, call: nat): (r: seq<Sent>)
    requires forall i :: 0 <= i < |events| ==> (events[i].Header? ==> |events[i].sps| >= 4)
                                               && (events[i].Coded? ==> events[i].nal != [])
    ensures |r| == |events|
  {
    seq(|events|, i requires 0 <= i < |events| => Sent(Packets(events, dts, pts)[i], events[i], call))
  }

  /** All calls of a run, and what they sent; None is the assertion of mux_sequence_header. */
  function RunCalls(c: Context, calls: seq<Call>): Option<(Context, seq<Sent>)>
    requires CallsNonEmpty(calls)
  {
    if calls == [] then Some((c, []))
    else
      var n := |calls| - 1;
      var front := RunCalls(c, calls[..n]);
      if front == None then None
      else
        var s := Run(front.value.0, calls[n].frames);
        if s == None then None
        else
          EventsAreWhole(front.value.0, calls[n].frames);
          Some((s.value.ctx, front.value.1 + SentIn(s.value.events, calls[n].dts, calls[n].pts, n)))
  }

  function AllFrames(calls: seq<Call>): seq<seq<byte>> {
    if calls == [] then [] else AllFrames(calls[..|calls| - 1]) + calls[|calls| - 1].frames
  }

  function EventsOf(sent: seq<Sent>): (r: seq<Event>)
    ensures |r| == |sent|
  {
    seq(|sent|, i requires 0 <= i < |sent| => sent[i].event)
  }

  lemma SentPlays(events: seq<Event>, dts: int, pts: int, call: nat, i: nat)
    requires forall i :: 0 <= i < |events| ==> (events[i].Header? ==> |events[i].sps| >= 4)
                                               && (events[i].Coded? ==> events[i].nal != [])
    requires i < |events|
    ensures var s := SentIn(events, dts, pts, call)[i];
            s.event == events[i] && s.call == call && Plays(s.packet, s.event, dts, pts)
  {
    EventPlays(events[i], dts, pts);
    hide Plays, EventBody;
    assert Packets(events, dts, pts)[i] == Packet(dts, EventBody(events[i], dts, pts));
    assert SentIn(events, dts, pts, call)[i] == Sent(Packets(events, dts, pts)[i], events[i], call);
  }

  /** Every packet sent plays its event at the times of its call. */
  predicate AllPlay(sent: seq<Sent>, calls: seq<Call>) {
    forall i :: 0 <= i < |sent| ==>
      && (sent[i].event.Header? ==> |sent[i].event.sps| >= 4) && (sent[i].event.Coded? ==> sent[i].event.nal != [])
      && sent[i].call < |calls|
      && Plays(sent[i].packet, sent[i].event, calls[sent[i].call].dts, calls[sent[i].call].pts)
  }

  lemma CallPlays(sent: seq<Sent>, calls: seq<Call>, events: seq<Event>)
    requires calls != [] && AllPlay(sent, calls[..|calls| - 1])
    requires forall i :: 0 <= i < |events| ==> (events[i].Header? ==> |events[i].sps| >= 4)
                                               && (events[i].Coded? ==> events[i].nal != [])
    ensures var last := calls[|calls| - 1];
            var all := sent + SentIn(events, last.dts, last.pts, |calls| - 1);
            AllPlay(all, calls) && EventsOf(all) == EventsOf(sent) + events
  {
    var last := calls[|calls| - 1];
    var more := SentIn(events, last.dts, last.pts, |calls| - 1);
    var all := sent + more;
    forall i | 0 <= i < |events| ensures Plays(more[i].packet, more[i].event, last.dts, last.pts) && more[i].event == events[i]
    {
      SentPlays(events, last.dts, last.pts, |calls| - 1, i);
    }
    hide Plays, Packets;
  }

  /** Main result: over every run of calls that meets no assertion, the events sent are those of one run over all
      frames, and every packet plays its event, with the times of the call that sent it. */
  lemma {:induction false} EveryPacketPlays(calls: seq<Call>)
    requires CallsNonEmpty(calls) && RunCalls(NEW_CONTEXT, calls).Some?
    ensures var r, frames := RunCalls(NEW_CONTEXT, calls).value, AllFrames(calls);
            && AllPlay(r.1, calls)
            && NonEmpty(frames) && Run(NEW_CONTEXT, frames).Some?
            && var all := Run(NEW_CONTEXT, frames).value; all.ctx == r.0 && all.events == EventsOf(r.1)
    decreases |calls|
  {
    hide Run, SentIn, AllPlay, NonEmpty, EventsOf;
    if calls == [] {
      RunNothing(NEW_CONTEXT);
      NothingSent();
    } else {
      var n := |calls| - 1;
      EveryPacketPlays(calls[..n]);
      var front := RunCalls(NEW_CONTEXT, calls[..n]).value;
      EventsAreWhole(front.0, calls[n].frames);
      CallPlays(front.1, calls, Run(front.0, calls[n].frames).value.events);
      RunAppend(NEW_CONTEXT, AllFrames(calls[..n]), calls[n].frames);
    }
  }

  lemma NothingSent()
    ensures AllPlay([], []) && EventsOf([]) == [] && NonEmpty([])
  {
  }
}
