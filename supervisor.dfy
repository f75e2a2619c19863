/**
  The reconnect decision of `onMqttDisconnect` (src/main.cpp:78-83): after a
  broker disconnect the callback arms the reconnect timer for a single
  `connectToMqtt` call 5 seconds later, but only while WiFi is still up. The
  disconnect reason is ignored, and the WiFi status is an input here.
*/
module Supervisor {
  import opened Wrappers

  /** The delay, in seconds, passed to `mqttReconnectTimer.once`. */
  const ReconnectDelaySeconds: nat := 5

  /**
    The delay after which `connectToMqtt` is scheduled, or `None` when
    nothing is scheduled.
  */
  function ReconnectDelay(wifiConnected: bool): (r: Option<nat>)
    ensures r.Some? <==> wifiConnected
    ensures r.Some? ==> r.value == ReconnectDelaySeconds
  {
    if wifiConnected then Some(ReconnectDelaySeconds) else None
  }
}
