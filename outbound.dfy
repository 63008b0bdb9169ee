/** The body the send helper posts to the messaging platform. */
module Outbound {
  import opened Basics

  const Product := "whatsapp"
  const DefaultMimeType := "audio/mpeg"

  datatype AudioBody = AudioBody(data: seq<byte>, mimeType: string)

  /** The JSON object `{messaging_product, to, type, text | audio}`. */
  datatype Payload = Payload(product: string, to: string, kind: string, text: Option<string>, audio: Option<AudioBody>)

  /** A payload's type tag names the one body it carries. */
  predicate WellFormed(p: Payload) {
    && p.product == Product
    && (p.kind == "text" <==> p.text.Some? && p.audio.None?)
    && (p.kind == "audio" <==> p.text.None? && p.audio.Some?)
  }

  /** Python truthiness of an optional string or byte string: present and non-empty. */
  predicate Truthy<T>(x: Option<seq<T>>) {
    x.Some? && x.value != []
  }

  /** The choice `send_whatsapp_message` makes: a non-empty text wins, else
      non-empty audio is sent with its MIME type, else nothing is posted
      (`None`). The audio is carried as raw bytes; its base64 encoding is
      not modelled. */
  function SelectPayload(to: string, text: Option<string>, audio: Option<seq<byte>>, mimeType: string := DefaultMimeType): (r: Option<Payload>)
    ensures r.None? <==> !Truthy(text) && !Truthy(audio)
    ensures r.Some? ==> WellFormed(r.value) && r.value.to == to
    ensures Truthy(text) ==> r.value.kind == "text" && r.value.text == text
    ensures !Truthy(text) && Truthy(audio) ==> r.value.kind == "audio" && r.value.audio == Some(AudioBody(audio.value, mimeType))
  {
    if Truthy(text) then Some(Payload(Product, to, "text", text, None))
    else if Truthy(audio) then Some(Payload(Product, to, "audio", None, Some(AudioBody(audio.value, mimeType))))
    else None
  }

  /** Supplying audio beside a non-empty text changes nothing: the text is sent. */
  lemma TextWinsOverAudio(to: string, text: string, audio: Option<seq<byte>>, mimeType: string)
    requires text != []
    ensures SelectPayload(to, Some(text), audio, mimeType) == SelectPayload(to, Some(text), None)
  {
  }

  /** An empty text counts as absent, so audio beside it is sent. */
  lemma EmptyTextFallsBackToAudio(to: string, audio: seq<byte>)
    requires audio != []
    ensures SelectPayload(to, Some(""), Some(audio)) == SelectPayload(to, None, Some(audio))
    ensures SelectPayload(to, None, Some(audio)).value.audio.value.mimeType == DefaultMimeType
  {
  }
}
