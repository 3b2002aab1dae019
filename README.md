# BLE camera/audio/IMU firmware core in Dafny

This project models the sequential core of an ESP32-S3 camera firmware. It covers five parts:

- **Fire-and-forget chunked senders.** Each sender notifies a 4-byte little-endian length header, then the payload in fixed-size pieces:
  - the NimBLE image sender uses 50-byte pieces, and its last piece is followed by the JPEG end-of-image bytes 0xFF 0xD9;
  - the NimBLE audio sender uses 180-byte pieces;
  - the XIAO image sender uses 512-byte pieces.
- **Connection flag and command dispatch.** The connection flag is set and cleared by the server callbacks and gates every send. The NimBLE `onWrite` handler dispatches on "START_CAMERA", "START_AUDIO" and "STOP_AUDIO".
- **IMU recording buffer.** A rate-limited tick with a 10 ms interval reads the IMU. It stores samples in a 1000-entry buffer while a recording runs, stops and flushes the buffer once it is full, and always sends the live sample. Time is 32-bit `unsigned long` with wrapping subtraction.
- **Audio recording state.** The recording flag, the buffer, its size and the task handle, as changed by `startRecording`, `stopRecording` and the end of `recordTask`.
- **Volume gain.** An in-place loop shifts every 16-bit little-endian sample after the 44-byte WAV header left by 2 bits, truncated to 16 bits.

## How the model is built

- **Characteristic.** A BLE characteristic (`Gatt.Characteristic`) holds its current value and a ghost log of every notified packet.
- **Framing.** The pure module `Framing` defines:
  - the header `LE32`;
  - the cut of a payload into pieces, `Chunks`, which makes the same `min(c, len - i)` cut as the loops;
  - the trailer on the last piece, `WithTrailer`;
  - the whole packet sequence of one send, `Transmission`.

  It proves the receiver-side properties: the header round trip, the piece count ceil(len / c), the piece sizes, the position of each piece, and reassembly by concatenation.
- **Senders.** Each sender method is a loop over an `array` that calls `SetValue` and `Notify`. Each is proved to append exactly `Transmission(deviceConnected, payload, c, trailer)` to the characteristic's log.
- **IMU.** The IMU globals are a class (`ImuHandler.ImuRecorder`) over an `array` of opaque samples. `UpdateIMU` is proved equal to the value-level step `Tick`. Properties of many ticks are lemmas about `Ticks`, checked against a closed form (`Recorded`).
- **Audio.** The audio globals are a class (`AudioHandler.AudioRecorder`). The gain loop is proved against the function `Gained`.

The header is the 4-byte length exactly as the senders write it: there is no sentinel, frame count, sequence number or acknowledgement in these code paths, so none is modelled.

## Model

| member | source | states |
|---|---|---|
| Framing.LE32RoundTrip | nimble_transfer.cpp:114-116 | the 4-byte header a sender emits decodes, read little-endian, to the payload length it encodes |
| Framing.DecodeLE32RoundTrip | nimble_transfer.cpp:114-116 | every 4-byte header is the encoding of exactly one length, so the header is a bijection on lengths below 2^32 |
| Framing.ChunksCount | nimble_transfer.cpp:119-120 | the loop cuts ceil(len / c) pieces: enough to hold the payload, one fewer would not, and none for an empty payload |
| Framing.ChunkAt | nimble_transfer.cpp:120-122 | piece k is exactly payload bytes [k*c, min((k+1)*c, len)) |
| Framing.ChunkSizes | xiao_esp32s3_sense/ble_transfer.cpp:70-71 | every piece but the last has c bytes; the last has len - (n-1)*c bytes, in [1, c] |
| Framing.ChunksFlatten | xiao_esp32s3_sense/ble_transfer.cpp:70-75 | concatenating the pieces in order gives back the payload exactly |
| Framing.ChunkStepWithTrailer | nimble_transfer.cpp:120-141 | a step of the image loop is the last exactly when its piece reaches the end of the frame; then what was sent, trailer included, is every piece with the trailer on the last, and otherwise the pieces still to go follow at offset i + c |
| Framing.LastChunkOnce | nimble_transfer.cpp:120-125 | `isLastChunk` holds on exactly one step of the image loop, the last one |
| Framing.FlattenWithTrailer | nimble_transfer.cpp:125-132 | concatenating pieces whose last carries the trailer gives the bytes followed by the trailer once |
| Framing.TransmissionRoundTrip | nimble_transfer.cpp:105-143 | with a central connected, a receiver that decodes the first packet gets the length; concatenating the rest gives the payload, followed by the trailer when there was a data packet; there are 1 + ceil(len / c) packets |
| Framing.TransmissionSizes | nimble_transfer.cpp:119-137 | the header packet has 4 bytes, the middle packets c bytes, and the last data packet the remainder in [1, c] plus the trailer, ending in the trailer; so the FF D9 packet fits the 52-byte static buffer |
| Gatt.Characteristic.SetValue | nimble_transfer.cpp:115 | `setValue` makes the given bytes the characteristic's value |
| Gatt.Characteristic.Notify | nimble_transfer.cpp:116 | `notify` hands the current value to the stack as one packet, appended to the log |
| Gatt.NotifyChunks | xiao_esp32s3_sense/ble_transfer.cpp:70-75 | the trailer-free chunk loop notifies exactly `Chunks(buf[0..len), c)`, in order |
| BleTransfer.BleLink.constructor | xiao_esp32s3_sense/ble_transfer.cpp:3-5 | the link starts disconnected with nothing notified |
| BleTransfer.BleLink.OnConnect | xiao_esp32s3_sense/ble_transfer.cpp:8-11 | the connected flag is true afterwards |
| BleTransfer.BleLink.OnDisconnect | xiao_esp32s3_sense/ble_transfer.cpp:13-16 | the connected flag is false afterwards |
| BleTransfer.BleLink.IsDeviceConnected | xiao_esp32s3_sense/ble_transfer.cpp:80-82 | returns the flag and changes nothing |
| BleTransfer.BleLink.SendImageViaBLE | xiao_esp32s3_sense/ble_transfer.cpp:56-78 | nothing without a central; otherwise exactly the 4-byte length header, then the frame in 512-byte pieces with no trailer |
| NimbleTransfer.NimbleLink.constructor | nimble_transfer.cpp:7-10 | the link starts disconnected, with two distinct characteristics whose logs are empty |
| NimbleTransfer.NimbleLink.OnConnect | nimble_transfer.cpp:14-17 | the connected flag is true afterwards |
| NimbleTransfer.NimbleLink.OnDisconnect | nimble_transfer.cpp:19-23 | the connected flag is false afterwards |
| NimbleTransfer.NimbleLink.IsDeviceConnected | nimble_transfer.cpp:169-172 | returns the flag and changes nothing |
| NimbleTransfer.NimbleLink.SendImageViaBLE | nimble_transfer.cpp:105-143 | nothing without a central; otherwise exactly the length header, then the frame in 50-byte pieces, the last followed by 0xFF 0xD9 |
| NimbleTransfer.NimbleLink.NotifyImageChunks | nimble_transfer.cpp:119-142 | the image loop notifies exactly the 50-byte pieces of the frame, the trailer after the last |
| NimbleTransfer.NimbleLink.NotifyImageChunk | nimble_transfer.cpp:136-141 | a chunk that is not the last goes out as exactly its bytes of the frame, in one notification |
| NimbleTransfer.NimbleLink.NotifyLastImageChunk | nimble_transfer.cpp:125-134 | the last chunk goes out as its bytes of the frame followed by 0xFF, 0xD9, in one notification |
| NimbleTransfer.NimbleLink.FillLastChunk | nimble_transfer.cpp:123-126 | the static buffer starts with the remaining bytes of the frame, then 0xFF, 0xD9 |
| NimbleTransfer.NimbleLink.SendAudioViaBLE | nimble_transfer.cpp:145-167 | nothing without a central; otherwise exactly the length header, then `data[0..length)` in 180-byte pieces with no trailer |
| NimbleTransfer.NimbleLink.OnWrite | nimble_transfer.cpp:29-64 | "START_CAMERA" sends the captured frame, if there is one, on the camera characteristic only. "START_AUDIO" starts a recording, with a live task, unless one runs, and sends nothing. "STOP_AUDIO" needs the held task handle to name a live task; it stops the recording and sends it on the audio characteristic only when the buffer is non-null and its size is above 0. Any other value changes nothing. No command leaves a handle to a task that is gone if there was none before |
| AudioHandler.Shl16 | xiao_esp32s3_sense/audio_handler.cpp:22 | `<<=` on a `uint16_t` always yields a 16-bit value |
| AudioHandler.GainScalesQuietSamples | xiao_esp32s3_sense/audio_handler.cpp:22 | the gain multiplies a signed sample by 4 exactly when the product fits 16 bits; louder samples wrap around instead of clipping |
| AudioHandler.Gained | xiao_esp32s3_sense/audio_handler.cpp:21-23 | the gained recording has the same length and the same 44 header bytes |
| AudioHandler.GainedWords | xiao_esp32s3_sense/audio_handler.cpp:21-22 | read as little-endian words, sample k of the gained recording is (w << 2) mod 2^16 of the old sample w |
| AudioHandler.ApplyVolumeGain | xiao_esp32s3_sense/audio_handler.cpp:21-23 | the in-place loop leaves the buffer equal to `Gained` of its old contents, provided the samples fill whole words |
| AudioHandler.AudioRecorder.constructor | xiao_esp32s3_sense/audio_handler.cpp:4-7 | no recording, no buffer, size 0, no task handle |
| AudioHandler.AudioRecorder.StartRecording | xiao_esp32s3_sense/audio_handler.cpp:58-70 | does nothing while recording; otherwise the buffer is released (null), the size is 0, the flag is up and a live task is held |
| AudioHandler.AudioRecorder.StopRecording | xiao_esp32s3_sense/audio_handler.cpp:72-78 | needs a held handle to name a live task; afterwards the flag is down and the handle cleared, a held task is deleted, and buffer and size are kept |
| AudioHandler.AudioRecorder.RecordOutcome | xiao_esp32s3_sense/audio_handler.cpp:12-23 | a failed recording leaves no buffer and size 0; a successful one is kept, with its size, and gained in place; the flag drops |
| AudioHandler.AudioRecorder.RecordTask | xiao_esp32s3_sense/audio_handler.cpp:10-43 | the end of the recording task, with the handle cleared before the task deletes itself, keeps every held handle live |
| AudioHandler.AudioRecorder.RecordTaskAsWritten | xiao_esp32s3_sense/audio_handler.cpp:10-43 | the end of the recording task as written: the task is gone but the handle is left as it was |
| AudioHandler.StaleHandleAfterRecording | xiao_esp32s3_sense/audio_handler.cpp:41-42 | after a start and a completed recording as written, the recording is held with its size and the flag is down, but so is a handle whose task no longer exists |
| AudioHandler.AudioRecorder.IsRecording | xiao_esp32s3_sense/audio_handler.cpp:80-82 | returns the flag and changes nothing |
| AudioHandler.AudioRecorder.GetAudioData | xiao_esp32s3_sense/audio_handler.cpp:84-86 | returns the current buffer and changes nothing |
| AudioHandler.AudioRecorder.GetAudioDataSize | xiao_esp32s3_sense/audio_handler.cpp:88-90 | returns the size, which is 0 without a buffer and its length with one |
| ImuHandler.Elapsed | xiao_esp32s3_sense/imu_handler.cpp:85 | the 32-bit unsigned difference: now - last, or 2^32 - last + now after the clock wrapped |
| ImuHandler.ElapsedAcrossWrap | xiao_esp32s3_sense/imu_handler.cpp:85 | a read d ms after the last one sees exactly d elapsed, whether or not `millis()` wrapped in between |
| ImuHandler.Tick | xiao_esp32s3_sense/imu_handler.cpp:83-105 | before the interval nothing changes. Otherwise the read time becomes now. A recording with room stores the sample at the index, leaves the other entries alone and advances the index by one; on reaching 1000 it stops and sends samples 0..999 before the live sample. Without such a recording only the live sample is sent. The buffer keeps its size and the index never passes 1000 |
| ImuHandler.Ticks | xiao_esp32s3_sense/imu_handler.cpp:92-96 | any run of ticks keeps 0 <= recordIndex <= 1000 and the buffer size |
| ImuHandler.NextReadDue | xiao_esp32s3_sense/imu_handler.cpp:85 | a reading at the read rate is due after the readings before it |
| ImuHandler.RecordedStepBuffer | xiao_esp32s3_sense/imu_handler.cpp:93 | a store at the index places the sample right after the samples recorded before it |
| ImuHandler.RecordedStepSent | xiao_esp32s3_sense/imu_handler.cpp:96-103 | one more reading sends the live sample, after the whole recording when it is the 1000th |
| ImuHandler.RecordedStep | xiao_esp32s3_sense/imu_handler.cpp:92-103 | one tick at the read rate extends the closed form of a recording by one reading |
| ImuHandler.RecordingFills | xiao_esp32s3_sense/imu_handler.cpp:83-105 | from `startRecording`, k <= 1000 readings at the read rate leave samples 0..k-1 in order, the rest untouched, index k, the recording running until the 1000th, and (connected) every live sample sent plus the full recording at the 1000th |
| ImuHandler.IdleKeepsRecording | xiao_esp32s3_sense/imu_handler.cpp:92 | without a running recording, any ticks leave the buffer and the index alone |
| ImuHandler.ImuRecorder.constructor | xiao_esp32s3_sense/imu_handler.cpp:4-7 | index 0, not recording, last read 0, nothing sent |
| ImuHandler.ImuRecorder.StartRecording | xiao_esp32s3_sense/imu_handler.cpp:45-49 | recording is on and the index is 0 |
| ImuHandler.ImuRecorder.StopRecording | xiao_esp32s3_sense/imu_handler.cpp:51-54 | recording is off; index and buffer are untouched |
| ImuHandler.ImuRecorder.IsRecording | xiao_esp32s3_sense/imu_handler.cpp:56-58 | returns the flag and changes nothing |
| ImuHandler.ImuRecorder.SendIMUDataViaBLE | xiao_esp32s3_sense/imu_handler.cpp:60-69 | one sample is sent when a central is connected, none otherwise |
| ImuHandler.ImuRecorder.SendRecordedDataViaBLE | xiao_esp32s3_sense/imu_handler.cpp:71-81 | nothing without a central; otherwise exactly `recordIndex` samples, entries 0..recordIndex-1 in order |
| ImuHandler.ImuRecorder.UpdateIMU | xiao_esp32s3_sense/imu_handler.cpp:83-105 | the new globals are `Tick` of the old ones at the given time and sample |

## Left out

- BLE and NimBLE initialisation (`initBLE`: device, server, service, characteristics, descriptors, advertising, MTU): library calls with no logic of their own.
- `vTaskDelay`, `delay` and `Serial` output: pacing and logging, with no effect on packet contents.
- FreeRTOS tasks and concurrency. `recordTask` runs on its own task and the callbacks run on the BLE stack's task. The model takes their effects as sequential steps, and a task deleted by `stopRecording` mid-recording simply never reaches its end.
- Driver calls become parameters or are dropped:
  - `capturePhoto` becomes the `photo` parameter of `OnWrite`;
  - `recordWAV` becomes the `recorded` parameter of `RecordTask`;
  - `millis()` and `readIMUData` become the parameters of `UpdateIMU`;
  - `savePhoto`, `esp_camera_fb_return`, the SD copy and `writeFile` in `recordTask`, and `strftime` file names are dropped.
- `initIMU`, `initAudio`, `readIMUData` and the float fields of `IMUData`: sensor I/O and floating point. A sample is an opaque value.
- `sendDataViaBLE`, which `sendIMUDataViaBLE` calls, is not part of this model. Every sample handed to it goes to a ghost log `sent`, so the IMU packet format is not modelled.
- The ACK-gated transfer (`startImageSend`, `processImageSend`, `cameraCommandPending`) is only declared in xiao_esp32s3_sense/ble_transfer.h:17-20 and has no definition to model. The same header declares a `sendAudioViaBLE` that xiao_esp32s3_sense/ble_transfer.cpp does not define.
- `ble_transfer copy.cpp` (an older variant with 244- and 512-byte chunks and a write handler) and survey/image_gen.py (a prompt template) are not part of this model.
- Gatt.NotifyChunks, NimbleTransfer.NimbleLink.SendImageViaBLE, NimbleTransfer.NimbleLink.SendAudioViaBLE and BleTransfer.BleLink.SendImageViaBLE require len + chunk size <= 2^31. Past that, `i += chunkSize` on a signed `int` overflows, which is undefined behaviour in C++. The condition is sufficient, not exact.
- AudioHandler.ApplyVolumeGain requires the samples after the header to fill whole 16-bit words. For an odd sample area the source's last `uint16_t` access reads and writes one byte past the buffer, which the model does not follow.
- NimbleTransfer.NimbleLink.OnWrite: its "STOP_AUDIO" case requires the recorder's handle to name a live task, so the guarantee holds only with the corrected `RecordTask`. With `recordTask` as written, the first "STOP_AUDIO" after a completed recording is in the stale-handle state this excludes (see Findings).
- NimbleTransfer.NimbleLink.OnDisconnect lowers the flag only. The `NimBLEDevice::startAdvertising()` call after it (nimble_transfer.cpp:22) is a library call and is not modelled.
- Gatt.Characteristic.Notify logs every value handed to `notify()`. Whether a central is subscribed and whether the packet fits the negotiated MTU are not modelled.
- ImuHandler.RecordingFills assumes the link state stays the same during the run of readings.

## Findings

| source | as written | input that shows it | evidently intended | confidence | as-written member | corrected member |
|---|---|---|---|---|---|---|
| xiao_esp32s3_sense/audio_handler.cpp:41-42 | `recordTask` ends with `vTaskDelete(NULL)` but leaves `recordTaskHandle` set. A later `stopRecording` (audio_handler.cpp:74-76) then calls `vTaskDelete` on a task that no longer exists. | "START_AUDIO", then the 10-second recording completes, then "STOP_AUDIO". A buffer exists only after a completed recording, so in every run where "STOP_AUDIO" sends a recording, the first "STOP_AUDIO" after that completion finds the stale handle and deletes the dead task. Later "STOP_AUDIO" commands find the handle already NULL. | `recordTask` sets `recordTaskHandle = NULL` before deleting itself, so a held handle always names a live task. | medium, not executed | AudioHandler.AudioRecorder.RecordTaskAsWritten, AudioHandler.StaleHandleAfterRecording | AudioHandler.AudioRecorder.RecordTask |
