/**
 * The NimBLE variant of the transfer layer (nimble_transfer.cpp): a
 * connection flag flipped by the server callbacks, a command handler on the
 * characteristics, and two fire-and-forget senders: JPEG frames in 50-byte
 * notifications closed by an FF D9 trailer, and WAV recordings in 180-byte
 * notifications.
 */
module NimbleTransfer {
  import opened Framing
  import opened Gatt
  import opened AudioHandler

  /** `chunkSize` of the image sender. */
  const IMAGE_CHUNK_SIZE: nat := 50
  /** `chunkSize` of the audio sender. */
  const AUDIO_CHUNK_SIZE: nat := 180
  /** The two bytes written after the last image chunk (the JPEG end-of-image marker). */
  const JPEG_EOI: seq<byte> := [0xFF, 0xD9]

  class NimbleLink {
    /** `deviceConnected`: a central is connected. */
    var deviceConnected: bool
    /** `pCameraCharacteristic`. */
    const camera: Characteristic
    /** `pAudioCharacteristic`. */
    const audio: Characteristic
    /** The function-local `static uint8_t buffer[chunkSize + 2]` the last image chunk is built in. */
    const lastChunk: array<byte>
    /** The audio handler whose functions the command handler calls. */
    const recorder: AudioRecorder

    ghost predicate Valid()
      reads this, recorder
    {
      && camera != audio
      && lastChunk.Length == IMAGE_CHUNK_SIZE + 2
      && recorder.Valid()
    }

    constructor (recorder: AudioRecorder)
      requires recorder.Valid()
      ensures Valid() && !deviceConnected && this.recorder == recorder
      ensures fresh(camera) && fresh(audio) && fresh(lastChunk)
      ensures camera.notified == [] && audio.notified == []
    {
      deviceConnected := false;
      camera := new Characteristic();
      audio := new Characteristic();
      lastChunk := new byte[IMAGE_CHUNK_SIZE + 2];
      this.recorder := recorder;
    }

    /** `MyServerCallbacks::onConnect`. */
    method OnConnect()
      modifies this`deviceConnected
      ensures deviceConnected
    {
      deviceConnected := true;
    }

    /**
     * `MyServerCallbacks::onDisconnect`: lowers the flag. The call to
     * `NimBLEDevice::startAdvertising()` that follows is not modelled.
     */
    method OnDisconnect()
      modifies this`deviceConnected
      ensures !deviceConnected
    {
      deviceConnected := false;
    }

    /** `isDeviceConnected`: reports the flag and changes nothing. */
    method IsDeviceConnected() returns (r: bool)
      ensures r == deviceConnected
    {
      r := deviceConnected;
    }

    /**
     * `sendImageViaBLE`: nothing without a central; otherwise the frame
     * length as a native (little-endian) `uint32_t`, then the frame in 50-byte
     * notifications. The last chunk is copied into the static buffer and
     * followed there by 0xFF 0xD9, so that packet is the remainder plus two.
     */
    method SendImageViaBLE(fb: array<byte>)
      requires Valid() && fb != lastChunk && LoopFits(fb.Length, IMAGE_CHUNK_SIZE)
      modifies camera, lastChunk
      ensures camera.notified
        == old(camera.notified) + Transmission(deviceConnected, fb[..], IMAGE_CHUNK_SIZE, JPEG_EOI)
    {
      if !deviceConnected {
        return;
      }
      camera.SetValue(LE32(fb.Length));
      camera.Notify();
      NotifyImageChunks(fb);
    }

    /**
     * The chunk loop of `sendImageViaBLE`: 50-byte pieces of the frame, the
     * last one (`i + currentChunkSize >= len`) built in the static buffer with
     * the trailer behind it.
     */
    method NotifyImageChunks(fb: array<byte>)
      requires Valid() && fb != lastChunk && LoopFits(fb.Length, IMAGE_CHUNK_SIZE)
      modifies camera, lastChunk
      ensures camera.notified == old(camera.notified) + WithTrailer(Chunks(fb[..], IMAGE_CHUNK_SIZE), JPEG_EOI)
    {
      var len := fb.Length;
      ghost var image := fb[..];
      ghost var start := camera.notified;
      ghost var sent: seq<seq<byte>> := [];
      var i := 0;
      while i < len
        invariant 0 <= i && fb[..] == image
        invariant camera.notified == start + sent
        invariant i < len ==> sent + Chunks(image[i..], IMAGE_CHUNK_SIZE) == Chunks(image, IMAGE_CHUNK_SIZE)
        invariant i >= len ==> sent == WithTrailer(Chunks(image, IMAGE_CHUNK_SIZE), JPEG_EOI)
      {
        assert i + IMAGE_CHUNK_SIZE < INT_LIMIT;
        var currentChunkSize := Min(IMAGE_CHUNK_SIZE, len - i);
        var isLastChunk := i + currentChunkSize >= len;
        ghost var chunk := image[i..i + currentChunkSize];
        ChunkStepWithTrailer(image, IMAGE_CHUNK_SIZE, i, sent, chunk, JPEG_EOI);
        assert fb[i..i + currentChunkSize] == chunk;
        if isLastChunk {
          NotifyLastImageChunk(fb, i, currentChunkSize);
          sent := sent + [chunk + JPEG_EOI];
        } else {
          NotifyImageChunk(fb, i, currentChunkSize);
          sent := sent + [chunk];
        }
        i := i + IMAGE_CHUNK_SIZE;
      }
      if len == 0 {
        assert sent == WithTrailer(Chunks(image, IMAGE_CHUNK_SIZE), JPEG_EOI);
      }
    }

    /** Any chunk of `sendImageViaBLE` but the last: `n` bytes of the frame in one notification. */
    method NotifyImageChunk(fb: array<byte>, i: nat, n: nat)
      requires i + n <= fb.Length
      modifies camera
      ensures camera.notified == old(camera.notified) + [fb[i..i + n]]
    {
      camera.SetValue(fb[i..i + n]);
      camera.Notify();
    }

    /**
     * The last-chunk branch of `sendImageViaBLE`: the remaining `n` bytes go
     * out in one notification with 0xFF 0xD9 behind them.
     */
    method NotifyLastImageChunk(fb: array<byte>, i: nat, n: nat)
      requires lastChunk.Length == IMAGE_CHUNK_SIZE + 2 && fb != lastChunk
      requires n <= IMAGE_CHUNK_SIZE && i + n <= fb.Length
      modifies camera, lastChunk
      ensures camera.notified == old(camera.notified) + [old(fb[i..i + n]) + JPEG_EOI]
    {
      FillLastChunk(fb, i, n);
      camera.SetValue(lastChunk[..n + 2]);
      camera.Notify();
    }

    /**
     * The buffer the last chunk is built in: `memcpy` of the remaining `n`
     * bytes into the static buffer, then 0xFF and 0xD9 behind them.
     */
    method FillLastChunk(fb: array<byte>, i: nat, n: nat)
      requires lastChunk.Length == IMAGE_CHUNK_SIZE + 2 && fb != lastChunk
      requires n <= IMAGE_CHUNK_SIZE && i + n <= fb.Length
      modifies lastChunk
      ensures lastChunk[..n + 2] == fb[i..i + n] + JPEG_EOI
    {
      forall j | 0 <= j < n {
        lastChunk[j] := fb[i + j];
      }
      lastChunk[n] := 0xFF;
      lastChunk[n + 1] := 0xD9;
      assert lastChunk[..n] == fb[i..i + n];
    }

    /**
     * `sendAudioViaBLE`: nothing without a central; otherwise the length as
     * a native `uint32_t`, then `data[0..length)` in 180-byte notifications,
     * the last one carrying the remainder and no trailer.
     */
    method SendAudioViaBLE(data: array<byte>, length: nat)
      requires length <= data.Length && LoopFits(length, AUDIO_CHUNK_SIZE)
      modifies audio
      ensures audio.notified
        == old(audio.notified) + Transmission(deviceConnected, data[..length], AUDIO_CHUNK_SIZE, [])
    {
      if !deviceConnected {
        return;
      }
      audio.SetValue(LE32(length));
      audio.Notify();
      NotifyChunks(audio, data, length, AUDIO_CHUNK_SIZE);
      WithEmptyTrailer(Chunks(data[..length], AUDIO_CHUNK_SIZE));
    }

    /**
     * `MyCallbacks::onWrite`: the command written by the central.
     * "START_CAMERA" sends the captured frame (`photo`, null when the capture
     * failed); "START_AUDIO" starts a recording; "STOP_AUDIO" stops it and
     * sends the recording only when there is a buffer and it is not empty;
     * any other value does nothing. `stopRecording` deletes the task its
     * handle names, so "STOP_AUDIO" needs that task to exist.
     */
    method OnWrite(value: string, photo: array?<byte>)
      requires Valid()
      requires photo != null ==> photo != lastChunk && LoopFits(photo.Length, IMAGE_CHUNK_SIZE)
      requires recorder.audioBuffer != null ==> LoopFits(recorder.audioBuffer.Length, AUDIO_CHUNK_SIZE)
      requires value == "STOP_AUDIO" ==> recorder.HandleLive()
      modifies camera, audio, lastChunk, recorder
      ensures Valid()
      ensures old(recorder.HandleLive()) ==> recorder.HandleLive()
      ensures value == "START_CAMERA" ==>
        && camera.notified == old(camera.notified)
             + (if photo == null then [] else Transmission(deviceConnected, photo[..], IMAGE_CHUNK_SIZE, JPEG_EOI))
        && audio.notified == old(audio.notified)
        && unchanged(recorder)
      ensures value == "START_AUDIO" ==>
        && camera.notified == old(camera.notified)
        && audio.notified == old(audio.notified)
        && (old(recorder.recording) ==> unchanged(recorder))
        && (!old(recorder.recording) ==>
              && recorder.recording && recorder.recordTaskHandle && recorder.taskAlive
              && recorder.audioBuffer == null && recorder.audioBufferSize == 0)
      ensures value == "STOP_AUDIO" ==>
        && camera.notified == old(camera.notified)
        && !recorder.recording && !recorder.recordTaskHandle
        && recorder.audioBuffer == old(recorder.audioBuffer)
        && recorder.audioBufferSize == old(recorder.audioBufferSize)
        && audio.notified == old(audio.notified)
             + (if recorder.audioBuffer != null && recorder.audioBufferSize > 0
                then Transmission(deviceConnected, recorder.audioBuffer[..recorder.audioBufferSize], AUDIO_CHUNK_SIZE, [])
                else [])
      ensures value != "START_CAMERA" && value != "START_AUDIO" && value != "STOP_AUDIO" ==>
        && camera.notified == old(camera.notified)
        && audio.notified == old(audio.notified)
        && unchanged(recorder) && unchanged(lastChunk)
    {
      if value == "START_CAMERA" {
        if photo != null {
          SendImageViaBLE(photo);
        }
      } else if value == "START_AUDIO" {
        recorder.StartRecording();
      } else if value == "STOP_AUDIO" {
        recorder.StopRecording();
        var audioData := recorder.GetAudioData();
        var audioSize := recorder.GetAudioDataSize();
        if audioData != null && audioSize > 0 {
          SendAudioViaBLE(audioData, audioSize);
        }
      }
    }
  }
}
