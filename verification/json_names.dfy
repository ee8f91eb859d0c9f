/** The literal names, as bytes. */
module JsonNames {
  import opened Bytes

  const NULL_NAME: bytes := [110, 117, 108, 108]
  const TRUE_NAME: bytes := [116, 114, 117, 101]
  const FALSE_NAME: bytes := [102, 97, 108, 115, 101]
  const NAN_NAME: bytes := [78, 97, 78]
  const INFINITY_NAME: bytes := [73, 110, 102, 105, 110, 105, 116, 121]
}
