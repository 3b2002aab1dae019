/**
 * The microphone side of the firmware (xiao_esp32s3_sense/audio_handler.cpp):
 * the recording flag and buffer that `startRecording`, `stopRecording` and
 * the end of `recordTask` update, and the volume gain `recordTask` applies in
 * place to the 16-bit PCM samples after the WAV header.
 */
module AudioHandler {
  import opened Framing

  /** `WAV_HEADER_SIZE`: bytes of RIFF/WAV header in front of the samples. */
  const WAV_HEADER_SIZE: nat := 44
  /** `VOLUME_GAIN`: how far each sample is shifted left. */
  const VOLUME_GAIN: nat := 2
  /** 2^16: one past the largest `uint16_t`. */
  const U16_LIMIT: nat := 0x1_0000

  // ---------------------------------------------------------------------
  // Sample words
  // ---------------------------------------------------------------------

  /**
   * The gain loop touches two bytes per step from offset 44 on, so it stays
   * inside the buffer only when the samples fill whole 16-bit words.
   */
  predicate WholeSamples(n: nat) {
    n <= WAV_HEADER_SIZE || (n - WAV_HEADER_SIZE) % 2 == 0
  }

  /** The `uint16_t` at byte offset `i`, read in the little-endian order of the ESP32-S3. */
  function Word(s: seq<byte>, i: nat): nat
    requires i + 1 < |s|
  {
    s[i] as int + 0x100 * s[i + 1] as int
  }

  function Pow2(n: nat): (r: nat)
    ensures r > 0
  {
    if n == 0 then 1 else 2 * Pow2(n - 1)
  }

  /**
   * `w <<= g` on a `uint16_t`: the value is shifted as an `int` and the
   * assignment truncates it back to 16 bits.
   */
  function Shl16(w: nat, g: nat): (r: nat)
    ensures r < U16_LIMIT
  {
    (w * Pow2(g)) % U16_LIMIT
  }

  function LowByte(w: nat): byte { w % 0x100 }

  function HighByte(w: nat): byte
    requires w < U16_LIMIT
  {
    w / 0x100
  }

  /** The 16-bit pattern read as the signed PCM sample it holds. */
  function Signed16(w: nat): int
    requires w < U16_LIMIT
  {
    if w < 0x8000 then w else w - U16_LIMIT
  }

  /** Storing a word as two bytes and reading it back gives the word. */
  lemma WordOfBytes(w: nat)
    requires w < U16_LIMIT
    ensures LowByte(w) as int + 0x100 * HighByte(w) as int == w
  {
  }

  /**
   * The gain multiplies a sample by 2^VOLUME_GAIN exactly when the product
   * still fits in a signed 16-bit sample; a louder sample wraps around
   * instead of being clipped.
   */
  lemma GainScalesQuietSamples(w: nat)
    requires w < U16_LIMIT
    ensures var f := Pow2(VOLUME_GAIN);
      (Signed16(Shl16(w, VOLUME_GAIN)) == f * Signed16(w)) <==> (-0x8000 <= f * Signed16(w) < 0x8000)
  {
  }

  // ---------------------------------------------------------------------
  // The gain applied to a whole recording
  // ---------------------------------------------------------------------

  /**
   * Byte `i` of the recording after the volume gain: header bytes as they
   * were; in a sample word, the low or high byte of the shifted word.
   */
  function GainedByte(s: seq<byte>, i: nat): byte
    requires WholeSamples(|s|) && i < |s|
  {
    if i < WAV_HEADER_SIZE then s[i]
    else if (i - WAV_HEADER_SIZE) % 2 == 0 then
      assert i + 1 < |s|;
      LowByte(Shl16(Word(s, i), VOLUME_GAIN))
    else HighByte(Shl16(Word(s, i - 1), VOLUME_GAIN))
  }

  /**
   * The recording after the volume gain: the header bytes as they were, each
   * sample word after it shifted left by VOLUME_GAIN and truncated to 16 bits.
   */
  function Gained(s: seq<byte>): (r: seq<byte>)
    requires WholeSamples(|s|)
    ensures |r| == |s|
    ensures forall i :: 0 <= i < |s| && i < WAV_HEADER_SIZE ==> r[i] == s[i]
  {
    seq(|s|, i requires 0 <= i < |s| => GainedByte(s, i))
  }

  /** Read as words, the gained recording holds each old sample word shifted left by VOLUME_GAIN. */
  lemma GainedWords(s: seq<byte>, k: nat)
    requires WholeSamples(|s|)
    requires WAV_HEADER_SIZE + 2 * k + 1 < |s|
    ensures Word(Gained(s), WAV_HEADER_SIZE + 2 * k) == Shl16(Word(s, WAV_HEADER_SIZE + 2 * k), VOLUME_GAIN)
  {
    // Dafny finds this proof unaided only past the resource limit; these steps keep it cheap.
    var i := WAV_HEADER_SIZE + 2 * k;
    var w := Shl16(Word(s, i), VOLUME_GAIN);
    GainedPair(s, k);
    WordOfBytes(w);
  }

  /** The two bytes of sample word `k` after the gain are the low and high byte of the shifted word. */
  lemma GainedPair(s: seq<byte>, k: nat)
    requires WholeSamples(|s|)
    requires WAV_HEADER_SIZE + 2 * k + 1 < |s|
    ensures var i := WAV_HEADER_SIZE + 2 * k;
      var w := Shl16(Word(s, i), VOLUME_GAIN);
      Gained(s)[i] == LowByte(w) && Gained(s)[i + 1] == HighByte(w)
  {
    var i := WAV_HEADER_SIZE + 2 * k;
    var w := Shl16(Word(s, i), VOLUME_GAIN);
    assert (i - WAV_HEADER_SIZE) % 2 == 0 by {
      assert i - WAV_HEADER_SIZE == 2 * k;
    }
    assert (i + 1 - WAV_HEADER_SIZE) % 2 == 1 by {
      assert i + 1 - WAV_HEADER_SIZE == 2 * k + 1;
    }
    assert GainedByte(s, i) == LowByte(w);
    assert GainedByte(s, i + 1) == HighByte(w);
  }

  /**
   * The gain loop of `recordTask`: walks the buffer two bytes at a time from
   * the end of the WAV header and shifts each `uint16_t` left in place.
   */
  method ApplyVolumeGain(a: array<byte>)
    requires WholeSamples(a.Length)
    modifies a
    ensures a[..] == Gained(old(a[..]))
  {
    ghost var recorded := a[..];
    var i := WAV_HEADER_SIZE;
    while i < a.Length
      invariant WAV_HEADER_SIZE <= i && (i - WAV_HEADER_SIZE) % 2 == 0
      invariant a.Length > WAV_HEADER_SIZE ==> i <= a.Length
      invariant forall j :: 0 <= j < i && j < a.Length ==> a[j] == GainedByte(recorded, j)
      invariant forall j :: i <= j < a.Length ==> a[j] == recorded[j]
    {
      assert i + 1 < a.Length;
      var w := a[i] as int + 0x100 * a[i + 1] as int;
      assert w == Word(recorded, i);
      w := Shl16(w, VOLUME_GAIN);
      assert LowByte(w) == GainedByte(recorded, i) && HighByte(w) == GainedByte(recorded, i + 1);
      a[i] := LowByte(w);
      a[i + 1] := HighByte(w);
      i := i + 2;
    }
    assert forall j :: 0 <= j < a.Length ==> a[j] == Gained(recorded)[j];
  }

  // ---------------------------------------------------------------------
  // Recording state
  // ---------------------------------------------------------------------

  /** The file-static state of audio_handler.cpp. */
  class AudioRecorder {
    /** `recording`: a recording has been started and has not ended. */
    var recording: bool
    /** `audioBuffer`: the last recording, or null. */
    var audioBuffer: array?<byte>
    /** `audioBufferSize`: its length in bytes. */
    var audioBufferSize: nat
    /** `recordTaskHandle != NULL`. */
    var recordTaskHandle: bool
    /** Whether the recording task exists: created by `xTaskCreate`, gone after `vTaskDelete`. */
    ghost var taskAlive: bool

    /** The size describes the buffer: zero without one, its length with one. */
    ghost predicate Valid()
      reads this
    {
      if audioBuffer == null then audioBufferSize == 0 else audioBufferSize == audioBuffer.Length
    }

    /**
     * A task handle that is held names a task that still exists: what
     * `vTaskDelete` on that handle needs.
     */
    ghost predicate HandleLive()
      reads this
    {
      recordTaskHandle ==> taskAlive
    }

    constructor ()
      ensures Valid() && HandleLive()
      ensures !recording && audioBuffer == null && audioBufferSize == 0 && !recordTaskHandle && !taskAlive
    {
      recording := false;
      audioBuffer := null;
      audioBufferSize := 0;
      recordTaskHandle := false;
      taskAlive := false;
    }

    /**
     * `startRecording`: ignored while a recording runs; otherwise releases
     * the previous recording, sets the size to 0, raises the flag and creates
     * the recording task.
     */
    method StartRecording()
      requires Valid()
      modifies this
      ensures Valid()
      ensures !old(recording) ==> HandleLive()
      ensures old(recording) ==> unchanged(this)
      ensures !old(recording) ==>
        && recording && recordTaskHandle && taskAlive
        && audioBuffer == null && audioBufferSize == 0
    {
      if !recording {
        if audioBuffer != null {
          audioBuffer := null;
        }
        audioBufferSize := 0;
        recording := true;
        recordTaskHandle := true;
        taskAlive := true;
      }
    }

    /**
     * `stopRecording`: lowers the flag and, if a handle is held, deletes that
     * task and drops the handle; the buffer and its size stay as they are.
     * `vTaskDelete` needs the task to exist, hence `HandleLive()`.
     */
    method StopRecording()
      requires Valid() && HandleLive()
      modifies this`recording, this`recordTaskHandle, this`taskAlive
      ensures Valid() && HandleLive()
      ensures !recording && !recordTaskHandle
      ensures old(recordTaskHandle) ==> !taskAlive
      ensures !old(recordTaskHandle) ==> taskAlive == old(taskAlive)
    {
      recording := false;
      if recordTaskHandle {
        taskAlive := false;
        recordTaskHandle := false;
      }
    }

    /**
     * The body of `recordTask` once `recordWAV` has returned `recorded`
     * (null when recording failed): a failure leaves no buffer and size 0;
     * a success keeps the buffer, gained in place. Either way the recording
     * flag drops and the task deletes itself, clearing its handle first so
     * that no handle outlives its task.
     */
    method RecordTask(recorded: array?<byte>)
      requires recorded != null ==> WholeSamples(recorded.Length)
      modifies this, recorded
      ensures Valid() && HandleLive()
      ensures !recording && !recordTaskHandle && !taskAlive
      ensures audioBuffer == recorded
      ensures recorded == null ==> audioBufferSize == 0
      ensures recorded != null ==> recorded[..] == Gained(old(recorded[..]))
    {
      RecordOutcome(recorded);
      recordTaskHandle := false;
      taskAlive := false;
    }

    /**
     * `recordTask` as written: the same outcome, but the task deletes itself
     * with `vTaskDelete(NULL)` and leaves `recordTaskHandle` set.
     */
    method RecordTaskAsWritten(recorded: array?<byte>)
      requires recorded != null ==> WholeSamples(recorded.Length)
      modifies this, recorded
      ensures Valid()
      ensures !recording && recordTaskHandle == old(recordTaskHandle) && !taskAlive
      ensures audioBuffer == recorded
      ensures recorded == null ==> audioBufferSize == 0
      ensures recorded != null ==> recorded[..] == Gained(old(recorded[..]))
    {
      RecordOutcome(recorded);
      taskAlive := false;
    }

    /** Lines 12-23 and 41 of `recordTask`: store the recording, apply the gain, drop the flag. */
    method RecordOutcome(recorded: array?<byte>)
      requires recorded != null ==> WholeSamples(recorded.Length)
      modifies this`audioBuffer, this`audioBufferSize, this`recording, recorded
      ensures Valid() && !recording
      ensures audioBuffer == recorded
      ensures recorded == null ==> audioBufferSize == 0
      ensures recorded != null ==> recorded[..] == Gained(old(recorded[..]))
    {
      audioBuffer := recorded;
      if audioBuffer == null {
        audioBufferSize := 0;
      } else {
        audioBufferSize := audioBuffer.Length;
        ApplyVolumeGain(audioBuffer);
      }
      recording := false;
    }

    /** `isRecording`. */
    method IsRecording() returns (r: bool)
      ensures r == recording
    {
      r := recording;
    }

    /** `getAudioData`: the current recording, or null. */
    method GetAudioData() returns (r: array?<byte>)
      ensures r == audioBuffer
    {
      r := audioBuffer;
    }

    /** `getAudioDataSize`: the length of the current recording. */
    method GetAudioDataSize() returns (r: nat)
      requires Valid()
      ensures r == audioBufferSize
      ensures r == (if audioBuffer == null then 0 else audioBuffer.Length)
    {
      r := audioBufferSize;
    }
  }

  /**
   * A recording that runs to completion under `recordTask` as written: the
   * handle stays set although the task is gone, so the `stopRecording` that
   * that has to follow before the recording can first be sent would delete
   * a task that no longer exists.
   */
  method StaleHandleAfterRecording(recorded: array<byte>) returns (r: AudioRecorder)
    requires WholeSamples(recorded.Length)
    modifies recorded
    ensures r.Valid() && r.recordTaskHandle && !r.taskAlive && !r.recording
    ensures r.audioBuffer == recorded && r.audioBufferSize == recorded.Length
  {
    r := new AudioRecorder();
    r.StartRecording();
    r.RecordTaskAsWritten(recorded);
  }
}
