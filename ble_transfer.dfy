/**
 * The camera firmware's BLE link (xiao_esp32s3_sense/ble_transfer.cpp): a
 * connection flag flipped by the server callbacks and a sender that pushes a
 * JPEG frame as a length header and 512-byte notifications.
 */
module BleTransfer {
  import opened Framing
  import opened Gatt

  /** `chunkSize` of the image sender: the BLE packet size it assumes. */
  const IMAGE_CHUNK_SIZE: nat := 512

  class BleLink {
    /** `deviceConnected`: a central is connected. */
    var deviceConnected: bool
    /** `pCharacteristic`: the one characteristic images are notified on. */
    const characteristic: Characteristic

    constructor ()
      ensures !deviceConnected && fresh(characteristic)
      ensures characteristic.notified == []
    {
      deviceConnected := false;
      characteristic := new Characteristic();
    }

    /** `MyServerCallbacks::onConnect`. */
    method OnConnect()
      modifies this`deviceConnected
      ensures deviceConnected
    {
      deviceConnected := true;
    }

    /** `MyServerCallbacks::onDisconnect`. */
    method OnDisconnect()
      modifies this`deviceConnected
      ensures !deviceConnected
    {
      deviceConnected := false;
    }

    /** `isDeviceConnected`: reports the flag and changes nothing. */
    method IsDeviceConnected() returns (r: bool)
      ensures r == deviceConnected
    {
      r := deviceConnected;
    }

    /**
     * `sendImageViaBLE`: nothing without a central; otherwise the frame length
     * as a native (little-endian) `uint32_t`, then the frame in 512-byte
     * notifications, the last one carrying the remainder and no trailer.
     */
    method SendImageViaBLE(fb: array<byte>)
      requires LoopFits(fb.Length, IMAGE_CHUNK_SIZE)
      modifies characteristic
      ensures characteristic.notified
        == old(characteristic.notified) + Transmission(deviceConnected, fb[..], IMAGE_CHUNK_SIZE, [])
    {
      if !deviceConnected {
        return;
      }
      var len := fb.Length;
      characteristic.SetValue(LE32(len));
      characteristic.Notify();
      NotifyChunks(characteristic, fb, len, IMAGE_CHUNK_SIZE);
      assert fb[..len] == fb[..];
      WithEmptyTrailer(Chunks(fb[..], IMAGE_CHUNK_SIZE));
    }
  }
}
