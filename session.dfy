/** The two ends together: what the host reads is what the resident loader
    writes to the UART. */
module Session {
  import opened Common
  import opened Frame
  import opened Elfloader
  import opened Ramloader

  /** A Ping from the host, received by a loader with an empty buffer, is
      answered by exactly one Pong frame, which the host reads as Pong. */
  lemma PingIsAnswered(s: LoaderState)
    requires s.pending == []
    ensures Feed(s, EncodeHost2Target(Ping)) == Ok(LoaderState([], s.writes + [EncodeTarget2Host(Pong)]))
    ensures Respond(EncodeTarget2Host(Pong)) == Reply(Ok(Pong), [])
  {
    ControlFrameFits(Ping);
    RequestFrameHandled(s, Ping);
    RespondToFrame(Pong, []);
    assert EncodeTarget2Host(Pong) + [] == EncodeTarget2Host(Pong);
  }

  /** Every Write the uploader can send fits the loader's buffer, is decoded
      there, and gets no answer at all. */
  lemma WriteGetsNoAnswer(s: LoaderState, address: u32, data: seq<byte>)
    requires s.pending == [] && |data| <= POSTCARD_PAYLOAD_SIZE
    ensures Feed(s, EncodeHost2Target(Write(address, data))) == Ok(LoaderState([], s.writes))
  {
    var m := Write(address, data);
    assert |EncodeHost2Target(m)| <= RX_CAPACITY by {
      WritePayloadFitsInBuffer(address, data);
    }
    RequestFrameHandled(s, m);
    assert s.writes + [] == s.writes;
  }

  /** Against the loader as the model completes it (a `Write` arm that
      does nothing), an upload with anything to write stops at its first
      Write: the loader stays silent, so the host's read of the response
      times out, and Execute is never sent. */
  lemma UploadStallsAgainstRamloader(segments: seq<Segment>)
    requires SegmentsFit(segments) && |UploadPlan(segments)| > 0
    ensures Sendable(UploadPlan(segments))
    ensures var c := UploadPlan(segments)[0];
            var first := Write(c.address, c.data);
            Feed(Init, EncodeHost2Target(first)) == Ok(Init) &&
            UploadSpec(segments, []) == Exchange([first], Fail(Timeout), [])
  {
    var plan := UploadPlan(segments);
    UploadPlanSendable(segments);
    SendableTail(plan);
    var c := plan[0];
    WriteGetsNoAnswer(Init, c.address, c.data);
    SilenceTimesOut([]);
    RunPlanStep(plan, []);
    WriteChunkAnsweredWith(c, [], Err(Timeout), []);
  }
}
