/**
 * UserSender: builds one message per created user and hands it to StreamBridge
 * on a fixed output binding. The bridge is outside the model; what the sender
 * handed to it is recorded in `sent`, and how the bridge answered is a parameter.
 */
module Sender {
  import opened Wrappers

  /** The output binding every profile-created message goes to. */
  const UserProfileChannel: string := "produceUserProfile-out-0"

  /** Spring Kafka's KafkaHeaders.KEY: the header that becomes the record key. */
  const KeyHeader: string := "kafka_messageKey"

  /** A message as built by MessageBuilder, restricted to the headers the code sets. */
  datatype Message = Message(payload: string, headers: map<string, string>)

  /** One call of StreamBridge.send: the binding name and the message. */
  datatype Delivery = Delivery(channel: string, message: Message)

  /** How StreamBridge.send answered: it returned its boolean, or it threw. */
  datatype SendResult = Returned(accepted: bool) | Threw(error: string)

  /** The record key a consumer of the message sees, if the message carries one. */
  function RecordKey(m: Message): Option<string> {
    if KeyHeader in m.headers then Some(m.headers[KeyHeader]) else None
  }

  /** The message for a created profile: the payload untouched, keyed by the user id, no other header. */
  function ProfileCreateMessage(userId: string, profileData: string): (m: Message)
    ensures m.payload == profileData
    ensures RecordKey(m) == Some(userId)
    ensures m.headers.Keys == {KeyHeader}
  {
    Message(profileData, map[KeyHeader := userId])
  }

  class UserSender {
    /** Every delivery handed to StreamBridge.send, oldest first. */
    var sent: seq<Delivery>

    constructor ()
      ensures sent == []
    {
      sent := [];
    }

    /**
     * Exactly one send per call, to the fixed binding. The boolean the bridge
     * returns is ignored; an exception from the bridge escapes to the caller.
     */
    method SendUserProfileCreate(userId: string, profileData: string, bridge: SendResult) returns (r: Outcome)
      modifies this
      ensures sent == old(sent) + [Delivery(UserProfileChannel, ProfileCreateMessage(userId, profileData))]
      ensures r.Pass? <==> bridge.Returned?
      ensures r.Fail? ==> bridge.Threw? && r.error == bridge.error
    {
      var message := ProfileCreateMessage(userId, profileData);
      sent := sent + [Delivery(UserProfileChannel, message)];
      match bridge
      case Returned(_) =>
        r := Pass;
      case Threw(e) =>
        r := Fail(e);
    }
  }
}
