/** What a receiver reads from the path attributes of an UPDATE (sections 4.3 and
    5.1 of RFC 4271, section 4.2.3 of RFC 6793 for AS4_PATH, section 3 of RFC 4760
    for the multiprotocol next hop). */
module Attributes {
  import opened Bytes
  import opened Framing
  import Update

  type Field = Update.Field

  /** The attributes of one UPDATE frame. */
  function Fields(frame: seq<byte>): Option<seq<Field>>
  {
    match Decode(frame)
    case Ok((Frame(KUpdate, body), _)) => FieldsOfBody(body)
    case _ => None
  }

  function FieldsOfBody(body: seq<byte>): Option<seq<Field>>
  {
    match Update.SplitRegions(body)
    case Err(_) => None
    case Ok(regions) =>
      match Update.SplitFields(regions.attributes)
      case Err(_) => None
      case Ok(fields) => Some(fields)
  }

  /** The value of the first attribute of a code. */
  function ValueOf(fields: seq<Field>, code: byte): Option<seq<byte>>
  {
    if fields == [] then None
    else if fields[0].code == code then Some(fields[0].value)
    else ValueOf(fields[1..], code)
  }

  function Width(four: bool): nat { if four then 4 else 2 }

  function Numbers(value: seq<byte>, four: bool): seq<u32>
    decreases |value|
  {
    if |value| < Width(four) then [] else
    [if four then U32Of(value[..4]) else U16Of(value[..2])] + Numbers(value[Width(four)..], four)
  }

  /** The AS numbers of all segments, in order. */
  function PathNumbers(value: seq<byte>, four: bool): seq<u32>
    decreases |value|
  {
    if |value| < 2 || |value| < 2 + value[1] * Width(four) then [] else
    var end := 2 + value[1] * Width(four);
    Numbers(value[2..end], four) + PathNumbers(value[end..], four)
  }

  /** The path with AS4_PATH merged in: it replaces as many numbers at the end of
      the AS_PATH of a two-octet session. */
  function FullPath(fields: seq<Field>, four: bool): Option<seq<u32>>
  {
    match ValueOf(fields, 2)
    case None => None
    case Some(value) =>
      var path := PathNumbers(value, four);
      match ValueOf(fields, 17)
      case None => Some(path)
      case Some(full) =>
        var long := PathNumbers(full, true);
        if four || |path| < |long| then Some(path) else Some(path[..|path| - |long|] + long)
  }

  /** The next hop, of the route's own attribute or the multiprotocol one. */
  function NextHopOf(fields: seq<Field>): Option<seq<byte>>
  {
    match ValueOf(fields, 14)
    case Some(value) =>
      if |value| < 4 || |value| < 4 + value[3] as int then None else Some(value[4..4 + value[3] as int])
    case None => ValueOf(fields, 3)
  }
}
