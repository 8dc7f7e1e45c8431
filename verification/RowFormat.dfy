/** The namespace byte that tells the rows of a primary family from its meta keys. */
module RowFormat {
  import opened Bytes

  const KEY_NS_DATA: byte := 1

  /** build_data_key */
  function DataKey(pk: seq<byte>): seq<byte> {
    [KEY_NS_DATA] + pk
  }

  /** is_data_key */
  predicate IsDataKey(k: seq<byte>) {
    k != [] && k[0] == KEY_NS_DATA
  }
}
