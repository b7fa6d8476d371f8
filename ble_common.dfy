/** What the Bluetooth layer hands to the application: addresses, names and advertisements. */
module BleCommon {
  import opened Wrappers

  /**
   * The matrix service UUID: the base UUID 4A98XXXX-E7C1-EFDE-C757-F1267DD021E8 with XXXX
   * replaced by 1623, in lower case, as the programs compare it against advertised UUIDs.
   */
  const MATRIX_SERVICE_UUID: string := "4a981623-e7c1-efde-c757-f1267dd021e8"

  /** The advertisement or scan-response fields the programs read. */
  datatype Advertisement = Advertisement(localName: Option<string>, serviceUuids: seq<string>)

  /** A discovered peripheral: its address and the name the Bluetooth stack reports for it. */
  datatype Device = Device(address: string, name: Option<string>)

  /** `MATRIX_SERVICE_UUID in adv.service_uuids` */
  predicate AdvertisesMatrixService(adv: Advertisement) {
    MATRIX_SERVICE_UUID in adv.serviceUuids
  }
}
