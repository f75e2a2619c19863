/**
  The delivery log that `publishToMqtt` writes after a successful publish
  (src/main.cpp:57-59) shows the first and the last 35 bytes of the payload
  with two `%.35s` conversions. The second one starts at the pointer
  `payload + strlen(payload) - 35`, which lies before the payload whenever it
  is shorter than 35 bytes. This module models that offset as written, and
  the bounded preview the log line evidently intends.
*/
module Preview {
  import opened Wrappers

  /**
    A C string as `%s` and `strlen` see it: the characters before its
    terminating NUL, so no NUL among them.
  */
  type CStr = s: string | '\0' !in s

  /** Width of each of the two `%.35s` conversions. */
  const PreviewWidth: nat := 35

  /** `%.35s` applied to the payload: at most its first 35 bytes. */
  function PreviewHead(payload: CStr): (r: string)
    ensures |r| == Min(PreviewWidth, |payload|)
    ensures r <= payload
  {
    payload[..Min(PreviewWidth, |payload|)]
  }

  /** The offset of `payload + strlen(payload) - 35` from the start of the payload, as written. */
  function TailOffsetAsWritten(payloadLen: nat): int
  {
    payloadLen - PreviewWidth
  }

  /** For every payload shorter than 35 bytes the written offset points before the buffer. */
  lemma TailOffsetOutOfBounds(payloadLen: nat)
    requires payloadLen < PreviewWidth
    ensures TailOffsetAsWritten(payloadLen) < 0
  {
  }

  /** A concrete payload for which the log line reads 30 bytes before the buffer. */
  lemma ShortPayloadCounterexample()
    ensures TailOffsetAsWritten(|"hello"|) == -30
  {
  }

  /** The corrected tail preview: the last `min(35, |payload|)` bytes of the payload. */
  function PreviewTail(payload: string): (r: string)
    ensures |r| == Min(PreviewWidth, |payload|)
    ensures payload == payload[..|payload| - |r|] + r
  {
    var start := Max(0, |payload| - PreviewWidth);
    assert payload == payload[..start] + payload[start..];
    payload[start..]
  }

  /**
    The second `%.35s` of the log line as written: `None` when the pointer
    `payload + strlen(payload) - 35` lies before the payload, so that the read
    is undefined, and otherwise the bytes it prints.
  */
  function TailAsWritten(payload: CStr): (r: Option<string>)
    ensures r.None? <==> TailOffsetAsWritten(|payload|) < 0
    ensures r.Some? ==> r.value == PreviewTail(payload) && |r.value| == PreviewWidth
  {
    var offset := TailOffsetAsWritten(|payload|);
    if offset < 0 then None else Some(payload[offset..])
  }

  /** Where the written offset is in bounds, the corrected tail reads the same bytes. */
  lemma PreviewTailAgreesWhenLong(payload: string)
    requires |payload| >= PreviewWidth
    ensures 0 <= TailOffsetAsWritten(|payload|) <= |payload|
    ensures PreviewTail(payload) == payload[TailOffsetAsWritten(|payload|)..]
  {
  }

  /** Together the two previews show every byte of a payload of at most 70 bytes. */
  lemma PreviewsCoverShortPayload(payload: CStr, k: nat)
    requires |payload| <= 2 * PreviewWidth && k < |payload|
    ensures (k < |PreviewHead(payload)| && PreviewHead(payload)[k] == payload[k])
         || (var t := PreviewTail(payload);
             var j := k - (|payload| - |t|);
             0 <= j < |t| && t[j] == payload[k])
  {
  }
}
