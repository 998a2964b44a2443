/**
 * What the receiver does with the first message it reads from the relay
 * (`run` in receiver.py): parse it, insist on an offer, install the filtered
 * offer as the remote description, create an answer and send exactly one
 * `{"type": "answer", "sdp": ...}` message back.
 *
 * `json.loads` is modelled by its result: `None` when it raised, otherwise
 * the parsed value. The peer connection's calls are two opaque functions:
 * `acceptsRemote(sdp)` says whether `setRemoteDescription` succeeds on the
 * filtered offer, and `createAnswer(sdp)` gives the local description's SDP
 * after `createAnswer` and `setLocalDescription`, or `None` if either raised.
 */
module Receiver {
  import opened SdpFilter

  datatype Option<T> = None | Some(value: T)

  /** A parsed JSON value; only the shape matters here. */
  datatype Json =
    | JNull
    | JBool(b: bool)
    | JNumber(literal: string)
    | JString(s: string)
    | JArray(items: seq<Json>)
    | JObject(fields: map<string, Json>)

  /** An `RTCSessionDescription`: its type tag and its SDP text. */
  datatype Description = Description(kind: string, sdp: string)

  /** How the session started by the first inbound message ends. */
  datatype Outcome =
      /** `json.loads` raised: logged, `run` returns. */
    | NotJson
      /** `data.get("type") != "offer"`: logged, `run` returns. */
    | NotAnOffer
      /** An exception escaped `run` (a non-object message, a missing or
          non-string `sdp`, or a failing peer-connection call);
          `installed` is the description set before it was raised, if any. */
    | Raised(installed: Option<Description>)
      /** The filtered offer was installed and `answer` was sent. */
    | Answered(remote: Description, answer: Json)

  /** `data.get(key)` on a parsed value; `None` means the call itself
      raises (the value is not a dictionary). */
  function Lookup(data: Json, key: string): (r: Option<Option<Json>>)
    ensures r.None? <==> !data.JObject?
    ensures r.Some? ==> (r.value.Some? <==> key in data.fields)
    ensures r.Some? && r.value.Some? ==> r.value.value == data.fields[key]
  {
    match data
    case JObject(fields) => Some(if key in fields then Some(fields[key]) else None)
    case _ => None
  }

  /** The message the sender builds (sender.py line 20). */
  function OfferMessage(sdp: string): Json {
    JObject(map["type" := JString("offer"), "sdp" := JString(sdp)])
  }

  /** The message the receiver sends back (receiver.py line 61). */
  function AnswerMessage(sdp: string): Json {
    JObject(map["type" := JString("answer"), "sdp" := JString(sdp)])
  }

  predicate IsAnswerMessage(m: Json) {
    m.JObject? && m.fields.Keys == {"type", "sdp"} &&
    m.fields["type"] == JString("answer") && m.fields["sdp"].JString?
  }

  /** The remote description installed during the session, if any. */
  function Installed(o: Outcome): Option<Description> {
    match o
    case Raised(remote) => remote
    case Answered(remote, _) => Some(remote)
    case _ => None
  }

  /** The messages sent on the channel during the session. */
  function Sent(o: Outcome): seq<Json> {
    if o.Answered? then [o.answer] else []
  }

  /** The message is an object whose `type` is the string "offer". */
  predicate IsOffer(data: Json) {
    data.JObject? && "type" in data.fields && data.fields["type"] == JString("offer")
  }

  /** The validation and answer sequence of receiver.py lines 34-62. */
  function Respond(
    inbound: Option<Json>,
    acceptsRemote: string -> bool,
    createAnswer: string -> Option<string>
  ): (o: Outcome)
    ensures inbound.None? <==> o == NotJson
    ensures |Sent(o)| <= 1
    ensures Sent(o) != [] ==> IsAnswerMessage(Sent(o)[0])
    ensures Installed(o).Some? ==>
      inbound.Some? && IsOffer(inbound.value) &&
      Installed(o).value.kind == "offer" &&
      !Contains(Installed(o).value.sdp, RtxCodec) &&
      !Contains(Installed(o).value.sdp, AptParam)
  {
    match inbound
    case None => NotJson
    case Some(data) =>
      match Lookup(data, "type")
      case None => Raised(None)
      case Some(tag) =>
        if tag != Some(JString("offer")) then NotAnOffer
        else if "sdp" !in data.fields || !data.fields["sdp"].JString? then Raised(None)
        else
          var filtered := FilteredSdp(data.fields["sdp"].s);
          var remote := Description("offer", filtered);
          if !acceptsRemote(filtered) then Raised(None)
          else match createAnswer(filtered)
            case None => Raised(Some(remote))
            case Some(local) => Answered(remote, AnswerMessage(local))
  }

  // ---------------------------------------------------------------------
  // The three exits of `run`

  /** An unparsable first message ends the session with no remote
      description set and nothing sent. */
  lemma NotJsonEndsQuietly(acceptsRemote: string -> bool, createAnswer: string -> Option<string>)
    ensures var o := Respond(None, acceptsRemote, createAnswer);
      Installed(o) == None && Sent(o) == []
  {
  }

  /** A first message whose `type` is missing or is not "offer" ends the
      session with nothing installed and nothing sent. */
  lemma NonOfferSendsNothing(data: Json, acceptsRemote: string -> bool, createAnswer: string -> Option<string>)
    requires !IsOffer(data)
    ensures var o := Respond(Some(data), acceptsRemote, createAnswer);
      Installed(o) == None && Sent(o) == [] &&
      (data.JObject? ==> o == NotAnOffer)
  {
  }

  /** A well-formed offer is answered: the installed remote description
      is the offer with its retransmission lines removed, and the single
      message sent carries the local description's SDP. */
  lemma OfferIsAnswered(
    offerSdp: string, extra: map<string, Json>,
    acceptsRemote: string -> bool, createAnswer: string -> Option<string>
  )
    requires acceptsRemote(FilteredSdp(offerSdp))
    requires createAnswer(FilteredSdp(offerSdp)).Some?
    ensures var data := JObject(extra["type" := JString("offer")]["sdp" := JString(offerSdp)]);
      var o := Respond(Some(data), acceptsRemote, createAnswer);
      Installed(o) == Some(Description("offer", FilteredSdp(offerSdp))) &&
      Sent(o) == [AnswerMessage(createAnswer(FilteredSdp(offerSdp)).value)]
  {
  }

  /** Only a message tagged "offer" can ever lead to an answer. */
  lemma AnswerOnlyForOffer(inbound: Option<Json>, acceptsRemote: string -> bool, createAnswer: string -> Option<string>)
    ensures Sent(Respond(inbound, acceptsRemote, createAnswer)) != [] ==>
      inbound.Some? && IsOffer(inbound.value) &&
      "sdp" in inbound.value.fields && inbound.value.fields["sdp"].JString?
  {
  }

  /** The sender's own message shape is accepted: when the peer
      connection cooperates, the receiver answers the sender's offer and
      installs exactly the filtered form of the sender's SDP. */
  lemma SenderOfferAccepted(offerSdp: string, acceptsRemote: string -> bool, createAnswer: string -> Option<string>)
    requires acceptsRemote(FilteredSdp(offerSdp))
    requires createAnswer(FilteredSdp(offerSdp)).Some?
    ensures var o := Respond(Some(OfferMessage(offerSdp)), acceptsRemote, createAnswer);
      o.Answered? && o.remote.sdp == FilteredSdp(offerSdp) &&
      IsAnswerMessage(o.answer)
  {
    OfferIsAnswered(offerSdp, map[], acceptsRemote, createAnswer);
    assert OfferMessage(offerSdp) == JObject(map[]["type" := JString("offer")]["sdp" := JString(offerSdp)]);
  }
}
