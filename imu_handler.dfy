/**
 * The motion side of the camera firmware (xiao_esp32s3_sense/imu_handler.cpp):
 * a rate-limited tick that reads the IMU, stores samples in a fixed
 * 1000-entry recording buffer while a recording runs, stops and flushes the
 * buffer when it is full, and always sends the live sample.
 *
 * A sample (`IMUData`) is an opaque value `S`; its float fields play no part
 * in the buffer logic. What `sendDataViaBLE` does with a sample is not part
 * of this model: every sample handed to it is appended to a log `sent`.
 */
module ImuHandler {
  import opened Framing
  import opened BleTransfer

  /** `IMU_READ_INTERVAL`: milliseconds between two reads (100 Hz). */
  const IMU_READ_INTERVAL: nat := 10
  /** `RECORD_BUFFER_SIZE`: samples a recording holds (10 s at 100 Hz). */
  const RECORD_BUFFER_SIZE: nat := 1000

  /** `unsigned long` on the ESP32-S3: 32 bits, as returned by `millis()`. */
  type U32 = x: int | 0 <= x < U32_LIMIT

  /**
   * `currentTime - lastIMURead` on `unsigned long`: the difference wraps
   * around modulo 2^32, so it stays correct when `millis()` overflows.
   */
  function Elapsed(now: U32, last: U32): (d: U32)
    ensures now >= last ==> d == now - last
    ensures now < last ==> d == U32_LIMIT - last + now
  {
    (now - last) % U32_LIMIT
  }

  /**
   * A read `d` milliseconds after `last` (the clock wrapping around in
   * between or not) sees exactly `d` elapsed.
   */
  lemma ElapsedAcrossWrap(last: U32, d: U32)
    ensures Elapsed(((last + d) % U32_LIMIT) as U32, last) == d
  {
    if last + d >= U32_LIMIT {
      assert (last + d) % U32_LIMIT == last + d - U32_LIMIT;
    }
  }

  // ---------------------------------------------------------------------
  // The recording state as a value, and one tick of `updateIMU`
  // ---------------------------------------------------------------------

  /**
   * The file-static state of imu_handler.cpp: `recordBuffer`, `recordIndex`,
   * `recording` and `lastIMURead`, plus every sample sent so far.
   */
  datatype ImuState<S> = ImuState(buffer: seq<S>, index: nat, recording: bool, lastRead: U32, sent: seq<S>)

  /** The buffer has its fixed size and the index never passes it. */
  predicate Inv<S>(st: ImuState<S>) {
    |st.buffer| == RECORD_BUFFER_SIZE && st.index <= RECORD_BUFFER_SIZE
  }

  /** What a send of `xs` adds to the log: everything with a central, nothing without. */
  function Sent<S>(connected: bool, xs: seq<S>): seq<S> {
    if connected then xs else []
  }

  /**
   * `updateIMU` at time `now`, reading `sample`, with the link's connection
   * flag `connected`: nothing before the interval has passed; otherwise the
   * read time moves to `now`, a running recording with room stores the
   * sample at the index and advances it, a recording that has just become
   * full stops and has its samples sent in order, and the live sample is
   * sent last.
   */
  function Tick<S>(st: ImuState<S>, now: U32, sample: S, connected: bool): (r: ImuState<S>)
    requires Inv(st)
    ensures Inv(r)
    ensures Elapsed(now, st.lastRead) < IMU_READ_INTERVAL ==> r == st
    ensures Elapsed(now, st.lastRead) >= IMU_READ_INTERVAL ==> r.lastRead == now
    ensures Elapsed(now, st.lastRead) >= IMU_READ_INTERVAL && st.recording && st.index < RECORD_BUFFER_SIZE ==>
      && r.index == st.index + 1
      && r.buffer == st.buffer[st.index := sample]
      && r.recording == (r.index < RECORD_BUFFER_SIZE)
      && r.sent == st.sent
           + (if r.index == RECORD_BUFFER_SIZE then Sent(connected, r.buffer) else [])
           + Sent(connected, [sample])
    ensures Elapsed(now, st.lastRead) >= IMU_READ_INTERVAL && !(st.recording && st.index < RECORD_BUFFER_SIZE) ==>
      && r.buffer == st.buffer && r.index == st.index && r.recording == st.recording
      && r.sent == st.sent + Sent(connected, [sample])
  {
    if Elapsed(now, st.lastRead) < IMU_READ_INTERVAL then st
    else if st.recording && st.index < RECORD_BUFFER_SIZE then
      var buffer := st.buffer[st.index := sample];
      var index := st.index + 1;
      if index >= RECORD_BUFFER_SIZE then
        assert buffer[..index] == buffer;
        ImuState(buffer, index, false, now, st.sent + Sent(connected, buffer[..index]) + Sent(connected, [sample]))
      else
        ImuState(buffer, index, st.recording, now, st.sent + Sent(connected, [sample]))
    else
      ImuState(st.buffer, st.index, st.recording, now, st.sent + Sent(connected, [sample]))
  }

  /** One reading of the sensor: the `millis()` time of the call and the sample read. */
  datatype Reading<S> = Reading(now: U32, sample: S)

  /** `updateIMU` called once per reading, in order, with the link state fixed. */
  function Ticks<S>(st: ImuState<S>, rs: seq<Reading<S>>, connected: bool): (r: ImuState<S>)
    requires Inv(st)
    ensures Inv(r)
    decreases |rs|
  {
    if |rs| == 0 then st
    else
      var before := Ticks(st, rs[..|rs| - 1], connected);
      Tick(before, rs[|rs| - 1].now, rs[|rs| - 1].sample, connected)
  }

  /** The samples of a run of readings, in order. */
  function Samples<S>(rs: seq<Reading<S>>): (r: seq<S>)
    ensures |r| == |rs|
    ensures forall k :: 0 <= k < |rs| ==> r[k] == rs[k].sample
  {
    seq(|rs|, k requires 0 <= k < |rs| => rs[k].sample)
  }

  /** The time of the reading before reading `k` (for the first, `last`). */
  function Prev<S>(last: U32, rs: seq<Reading<S>>, k: nat): U32
    requires k < |rs|
  {
    if k == 0 then last else rs[k - 1].now
  }

  /** The samples of a run are those of all but its last reading, then the last one's. */
  lemma SamplesLast<S>(rs: seq<Reading<S>>)
    requires |rs| > 0
    ensures Samples(rs) == Samples(rs[..|rs| - 1]) + [rs[|rs| - 1].sample]
  {
  }

  /** Each reading comes at least the read interval after the one before it. */
  predicate Spaced<S>(last: U32, rs: seq<Reading<S>>) {
    forall k :: 0 <= k < |rs| ==> Elapsed(rs[k].now, Prev(last, rs, k)) >= IMU_READ_INTERVAL
  }

  /** Readings at the read rate stay so when the last one is dropped. */
  lemma SpacedPrefix<S>(last: U32, rs: seq<Reading<S>>)
    requires |rs| > 0 && Spaced(last, rs)
    ensures Spaced(last, rs[..|rs| - 1])
  {
  }

  /**
   * Where a recording started from an empty buffer stands after the readings
   * `rs` (at most 1000) arrive at the read rate: the first |rs| entries are
   * those samples in order and the rest of the buffer is untouched; the index
   * is |rs|; the recording runs until the 1000th; the read time is that of the
   * last reading. With a central connected, each live sample has gone out,
   * and when the 1000th arrived the whole recording went out in order before
   * that last live sample.
   */
  function Recorded<S>(st: ImuState<S>, rs: seq<Reading<S>>, connected: bool): (r: ImuState<S>)
    requires Inv(st) && |rs| <= RECORD_BUFFER_SIZE
    ensures Inv(r)
  {
    var n := |rs|;
    ImuState(
      Samples(rs) + st.buffer[n..],
      n,
      n < RECORD_BUFFER_SIZE,
      if n == 0 then st.lastRead else rs[n - 1].now,
      st.sent + Sent(connected,
        if n < RECORD_BUFFER_SIZE then Samples(rs)
        else Samples(rs)[..n - 1] + Samples(rs) + [rs[n - 1].sample]))
  }

  /**
   * Started from an empty buffer and fed at most 1000 readings at the read
   * rate, `updateIMU` reaches exactly the state `Recorded` describes.
   */
  lemma {:induction false} RecordingFills<S>(st: ImuState<S>, rs: seq<Reading<S>>, connected: bool)
    requires Inv(st) && st.recording && st.index == 0
    requires |rs| <= RECORD_BUFFER_SIZE && Spaced(st.lastRead, rs)
    ensures Ticks(st, rs, connected) == Recorded(st, rs, connected)
    decreases |rs|
  {
    if |rs| == 0 {
      assert Samples(rs) + st.buffer[0..] == st.buffer;
      assert st.sent + Sent(connected, Samples(rs)) == st.sent;
    } else {
      SpacedPrefix(st.lastRead, rs);
      RecordingFills(st, rs[..|rs| - 1], connected);
      RecordedStep(st, rs, connected);
    }
  }

  /** One more reading at the read rate takes `Recorded` of the earlier readings to `Recorded` of all. */
  lemma RecordedStep<S>(st: ImuState<S>, rs: seq<Reading<S>>, connected: bool)
    requires Inv(st) && st.recording && st.index == 0
    requires 0 < |rs| <= RECORD_BUFFER_SIZE && Spaced(st.lastRead, rs)
    ensures Tick(Recorded(st, rs[..|rs| - 1], connected), rs[|rs| - 1].now, rs[|rs| - 1].sample, connected)
      == Recorded(st, rs, connected)
  {
    NextReadDue(st, rs, connected);
    RecordedStepBuffer(st, rs, connected);
    RecordedStepSent(st, rs, connected);
  }

  /** The next reading of a run at the read rate is due after the earlier ones. */
  lemma NextReadDue<S>(st: ImuState<S>, rs: seq<Reading<S>>, connected: bool)
    requires Inv(st) && 0 < |rs| <= RECORD_BUFFER_SIZE && Spaced(st.lastRead, rs)
    ensures Elapsed(rs[|rs| - 1].now, Recorded(st, rs[..|rs| - 1], connected).lastRead) >= IMU_READ_INTERVAL
  {
  }

  /** The step stores the new sample right behind the earlier ones. */
  lemma RecordedStepBuffer<S>(st: ImuState<S>, rs: seq<Reading<S>>, connected: bool)
    requires Inv(st) && 0 < |rs| <= RECORD_BUFFER_SIZE
    ensures Recorded(st, rs[..|rs| - 1], connected).buffer[|rs| - 1 := rs[|rs| - 1].sample]
      == Recorded(st, rs, connected).buffer
  {
  }

  /** The step sends the live sample, after the whole recording when it is the 1000th. */
  lemma RecordedStepSent<S>(st: ImuState<S>, rs: seq<Reading<S>>, connected: bool)
    requires Inv(st) && 0 < |rs| <= RECORD_BUFFER_SIZE
    ensures var n := |rs|;
      Recorded(st, rs, connected).sent
      == Recorded(st, rs[..n - 1], connected).sent
         + (if n == RECORD_BUFFER_SIZE then Sent(connected, Recorded(st, rs, connected).buffer) else [])
         + Sent(connected, [rs[n - 1].sample])
  {
    // These steps are not needed for validity; they keep the proof cheap on every solver seed.
    var n := |rs|;
    var x := rs[n - 1].sample;
    var earlier := Samples(rs[..n - 1]);
    SamplesLast(rs);
    assert Samples(rs)[..n - 1] == earlier;
    var before := Recorded(st, rs[..n - 1], connected);
    var after := Recorded(st, rs, connected);
    assert before.sent == st.sent + Sent(connected, earlier);
    if n == RECORD_BUFFER_SIZE {
      assert after.buffer == Samples(rs);
      assert after.sent == st.sent + Sent(connected, earlier + Samples(rs) + [x]);
      if connected {
        assert after.sent == before.sent + Samples(rs) + [x];
      }
    } else {
      assert after.sent == st.sent + Sent(connected, earlier + [x]);
      if connected {
        assert after.sent == before.sent + [x];
      }
    }
  }

  /**
   * Once no recording runs, any further ticks leave the buffer and the index
   * alone: a finished recording stays available to be sent.
   */
  lemma {:induction false} IdleKeepsRecording<S>(st: ImuState<S>, rs: seq<Reading<S>>, connected: bool)
    requires Inv(st) && !st.recording
    ensures var r := Ticks(st, rs, connected);
      r.buffer == st.buffer && r.index == st.index && !r.recording
    decreases |rs|
  {
    if |rs| > 0 {
      IdleKeepsRecording(st, rs[..|rs| - 1], connected);
    }
  }

  // ---------------------------------------------------------------------
  // The globals and functions of imu_handler.cpp
  // ---------------------------------------------------------------------

  class ImuRecorder<S(0)> {
    /** The link whose `isDeviceConnected` gates every send. */
    const link: BleLink
    /** `recordBuffer[RECORD_BUFFER_SIZE]`. */
    const recordBuffer: array<S>
    /** `recordIndex`: entries of the current recording stored so far. */
    var recordIndex: nat
    /** `recording`. */
    var recording: bool
    /** `lastIMURead`: `millis()` at the last read. */
    var lastIMURead: U32
    /** Every sample handed to `sendDataViaBLE`, in order. */
    ghost var sent: seq<S>

    ghost predicate Valid()
      reads this
    {
      recordBuffer.Length == RECORD_BUFFER_SIZE && recordIndex <= RECORD_BUFFER_SIZE
    }

    /** The globals as an `ImuState` value. */
    ghost function State(): ImuState<S>
      reads this, recordBuffer
    {
      ImuState(recordBuffer[..], recordIndex, recording, lastIMURead, sent)
    }

    /** The zero-initialised globals at boot. */
    constructor (link: BleLink)
      ensures Valid() && Inv(State()) && this.link == link && fresh(recordBuffer)
      ensures recordIndex == 0 && !recording && lastIMURead == 0 && sent == []
    {
      this.link := link;
      recordBuffer := new S[RECORD_BUFFER_SIZE];
      recordIndex := 0;
      recording := false;
      lastIMURead := 0;
      sent := [];
    }

    /** `startRecording`: a new recording from the start of the buffer. */
    method StartRecording()
      modifies this`recording, this`recordIndex
      ensures recording && recordIndex == 0
    {
      recording := true;
      recordIndex := 0;
    }

    /** `stopRecording`: the flag drops; index and buffer keep the recording. */
    method StopRecording()
      modifies this`recording
      ensures !recording
    {
      recording := false;
    }

    /** `isRecording`. */
    method IsRecording() returns (r: bool)
      ensures r == recording
    {
      r := recording;
    }

    /** `sendIMUDataViaBLE`: one sample out, only while a central is connected. */
    method SendIMUDataViaBLE(data: S)
      modifies this`sent
      ensures sent == old(sent) + Sent(link.deviceConnected, [data])
    {
      var connected := link.IsDeviceConnected();
      if !connected {
        return;
      }
      sent := sent + [data];
    }

    /**
     * `sendRecordedDataViaBLE`: only while a central is connected, the
     * stored samples 0 .. recordIndex-1, one packet each and in index order.
     */
    method SendRecordedDataViaBLE()
      requires Valid()
      modifies this`sent
      ensures sent == old(sent) + Sent(link.deviceConnected, recordBuffer[..recordIndex])
    {
      var connected := link.IsDeviceConnected();
      if !connected {
        return;
      }
      var i := 0;
      while i < recordIndex
        invariant 0 <= i <= recordIndex
        invariant sent == old(sent) + recordBuffer[..i]
      {
        assert recordBuffer[..i + 1] == recordBuffer[..i] + [recordBuffer[i]];
        SendIMUDataViaBLE(recordBuffer[i]);
        i := i + 1;
      }
    }

    /**
     * `updateIMU` with `millis()` returning `currentTime` and `readIMUData`
     * returning `currentData`: one `Tick` of the state.
     */
    method UpdateIMU(currentTime: U32, currentData: S)
      requires Valid()
      modifies this, recordBuffer
      ensures Valid()
      ensures State() == Tick(old(State()), currentTime, currentData, link.deviceConnected)
    {
      if Elapsed(currentTime, lastIMURead) >= IMU_READ_INTERVAL {
        lastIMURead := currentTime;
        if recording && recordIndex < RECORD_BUFFER_SIZE {
          recordBuffer[recordIndex] := currentData;
          recordIndex := recordIndex + 1;
          if recordIndex >= RECORD_BUFFER_SIZE {
            StopRecording();
            SendRecordedDataViaBLE();
          }
        }
        SendIMUDataViaBLE(currentData);
      }
    }
  }
}
