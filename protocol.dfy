/**
 * The relay's wire protocol: the JSON objects the client receives and
 * sends over its socket, as a closed variant on their `type` field.
 */
module Protocol {
  import opened Wrappers

  /** One element of the `peers` array of the roster snapshot. */
  datatype RosterEntry = RosterEntry(id: string, username: string, pubkey: Option<string>)

  /** Relay -> client. `Unrecognised` stands for any other `type`, which the handler ignores. */
  datatype Inbound =
    | Peers(you: string, peers: seq<RosterEntry>)
    | PeerJoined(id: string, username: string)
    | PeerPubkey(id: string, pubkey: Option<string>)
    | PeerLeft(id: string)
    | EncrMessage(from: string, iv: string, ct: string)
    | BroadcastEncrMessage(from: string, iv: string, ct: string)
    | Unrecognised

  /**
   * Client -> relay. The `pubkey` of an announcement is null when the
   * key pair has not finished generating before the roster arrives.
   */
  datatype Outbound =
    | AnnouncePubkey(pubkey: Option<string>)
    | SendEncrMessage(to: string, iv: string, ct: string)
}
