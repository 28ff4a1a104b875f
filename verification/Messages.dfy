/** NOTIFICATION and ROUTE-REFRESH bodies (crates/flowsdn-bgp-proto/src/messages.rs;
    section 4.5 of RFC 4271, RFC 2918, section 3 of RFC 8538). */
module Messages {
  import opened Bytes
  import opened Framing
  import opened Negotiation

  datatype Notification = Notification(code: byte, subcode: byte, data: seq<byte>)

  /** The most data a NOTIFICATION can carry. */
  const MAX_DATA := MAX_BODY - 2

  function EncodeNotification(n: Notification): Result<seq<byte>, ProtocolError>
  {
    var body := [n.code, n.subcode] + n.data;
    var _ :- Encode(KNotification, body);
    Ok(body)
  }

  function DecodeNotification(body: seq<byte>): Result<Notification, ProtocolError>
  {
    if |body| < 2 || |body| > 4077 then Err(FramingError(2))
    else Ok(Notification(body[0], body[1], body[2..]))
  }

  /** Exactly the notifications whose data fits are encodable, and each decodes
      back; everything the decoder accepts encodes to the same body. */
  lemma NotificationRoundTrip(n: Notification, body: seq<byte>)
    ensures EncodeNotification(n).Ok? <==> |n.data| <= MAX_DATA
    ensures EncodeNotification(n).Ok? ==> DecodeNotification(EncodeNotification(n).value) == Ok(n)
    ensures DecodeNotification(body).Ok? ==> EncodeNotification(DecodeNotification(body).value) == Ok(body)
    ensures DecodeNotification(body).Ok? <==> 2 <= |body| <= 4077
    ensures DecodeNotification(body) == Ok(n) <==>
            2 <= |body| <= 4077 && body[0] == n.code && body[1] == n.subcode && body[2..] == n.data
  {
    EncodeDecode(KNotification, [n.code, n.subcode] + n.data, []);
    assert ([n.code, n.subcode] + n.data)[2..] == n.data;
    if DecodeNotification(body).Ok? {
      assert [body[0], body[1]] + body[2..] == body;
      EncodeDecode(KNotification, body, []);
    }
  }

  /** A hard cause is wrapped in Cease/Hard Reset when both ends understand it. */
  function HardReset(n: Notification, notifications: bool): Result<Notification, ProtocolError>
  {
    if !notifications then Ok(n) else
    var data :- EncodeNotification(n);
    var wrapped := Notification(6, 9, data);
    var _ :- EncodeNotification(wrapped);
    Ok(wrapped)
  }

  predicate PermitsGracefulRestart(n: Notification, notifications: bool)
  {
    notifications && !(n.code == 6 && n.subcode == 9)
  }

  /** The receiver of a wrapped cause recovers it whole and drops the routes. */
  lemma HardResetRecovered(n: Notification)
    requires HardReset(n, true).Ok?
    ensures var w := HardReset(n, true).value;
            && !PermitsGracefulRestart(w, true)
            && DecodeNotification(w.data) == Ok(n)
            && DecodeNotification(EncodeNotification(w).value) == Ok(w)
  {
    NotificationRoundTrip(n, []);
    NotificationRoundTrip(HardReset(n, true).value, []);
  }

  const UNSUPPORTED_VERSION := Notification(2, 1, [0, 4])

  function RouteRefresh(family: Family): Result<seq<byte>, ProtocolError>
  {
    if FamilyValid(family) then Ok(U16Bytes(family.afi) + [0, family.safi])
    else Err(ProtocolError(2, 7, InOpen))
  }

  function DecodeRefresh(body: seq<byte>): Result<Family, ProtocolError>
  {
    if |body| != 4 then Err(ProtocolError(7, 1, InFraming)) else
    var family := Family(U16Of(body[..2]), body[3]);
    if FamilyValid(family) then Ok(family) else Err(ProtocolError(2, 7, InOpen))
  }

  /** A ROUTE-REFRESH body names a family in its outer octets and is refused for its
      size before its family. */
  lemma RefreshExactly(body: seq<byte>)
    ensures DecodeRefresh(body) ==
            if |body| != 4 then Err(ProtocolError(7, 1, InFraming))
            else
              var family := Family(256 * body[0] as int + body[1] as int, body[3]);
              if family.afi in {1, 2} && family.safi == 1 then Ok(family) else Err(ProtocolError(2, 7, InOpen))
  {
    if |body| == 4 { assert body[..2] == [body[0], body[1]]; }
  }

  lemma RefreshRoundTrip(family: Family)
    requires FamilyValid(family)
    ensures RouteRefresh(family).Ok?
    ensures DecodeRefresh(RouteRefresh(family).value) == Ok(family)
    ensures Encode(KRouteRefresh, RouteRefresh(family).value).Ok?
    ensures RouteRefresh(family).value[2] == 0
  {
    var body := RouteRefresh(family).value;
    assert body[..2] == U16Bytes(family.afi);
    U16RoundTrip(family.afi);
    EncodeDecode(KRouteRefresh, body, []);
  }
}
