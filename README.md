# End-to-end encrypted room chat client: peer directory and message routing

This project models the client side of a relay-mediated chat room in Dafny. Each
participant keeps a directory of the other peers (id -> username and optional
public key), and derives a pairwise AES-GCM key from its own P-256 private key
and each peer's public key. It sends every chat line separately encrypted to
each peer whose key it knows. Two kinds of message arrive from the relay:
membership events (`peers`, `peer-joined`, `peer-pubkey`, `peer-left`) and
ciphertexts (`encr-message`, `broadcast-encr-message`).

Modules:

- `Wrappers` (wrappers.dfy) holds `Option` and `Result`.
- `Protocol` (protocol.dfy) holds the wire events as closed variants.
- `Binary` (binary.dfy) holds `ab2b64` and `b642ab`. Base64 itself (`btoa`/`atob`,
  section 4 of RFC 4648) is a parameter. Its one law is `RoundTrips`: decoding
  inverts encoding on binary strings.
- `Directory` (directory.dfy) holds the `peerMap` transitions as functions on
  `map<string, PeerRecord>`, the roster loop as a method, and the directory
  reducer with a convergence lemma over traces.
- `Cipher` (cipher.dfy) holds `deriveAesKey`, `encryptForPeer` and
  `decryptFromPeer`. Key import, ECDH derivation and AES-GCM are function
  parameters (`Env`, `Aead`). `Env` also carries the client's private key,
  which is null until the key pair has been generated; deriving a key
  without it fails, so nothing can be encrypted or decrypted before then.
  `Opens` is the law that decryption inverts encryption. The two-party round
  trip also assumes that ECDH gives both sides the same key.
- `Session` (session.dfy) holds the class `Client` with the state the core
  updates: `peerMap`, `messages`, `youId`, the text field, and the outbound
  queue that stands for `socket.send`. It also holds the socket's message
  handler, the receive path and `sendMessage`. The send loop is `FanOut`, and
  its per-peer outcomes are `Outcomes`.

Every handler in the model reads the current directory. The source's message
handler reads the directory captured when `connect()` ran (see Findings).

Behaviours of the code that the model keeps as they are:

- `peer-joined` for an id already in the directory replaces its entry, key included.
- The roster snapshot replaces any stored key with the roster's, possibly null.
- `sendMessage` appends one local echo for each peer it sent to, so a line sent to three peers is echoed three times.
- The derived AES key is not cached. It is re-derived on every encrypt and decrypt.
- A username that is empty falls back to the sender id in the log, as `||` does.

## Model

| member | source | states |
|---|---|---|
| `Binary.CharCode` | Client.jsx:25 | storing a char code into a Uint8Array slot keeps it exactly when it is below 256 |
| `Binary.BinaryString` | Client.jsx:20 | `String.fromCharCode(...bytes)` is a binary string of the same length whose char codes are the bytes |
| `Binary.Ab2b64` | Client.jsx:19-21 | under a lawful base64, `atob` of the result gives back the binary string of the buffer |
| `Binary.B642ab` | Client.jsx:22-27 | fails exactly when `atob` throws; otherwise the array has the decoded string's length and byte i is the char code of character i |
| `Binary.DecodedInvertsAb2b64` | Client.jsx:19-27 | `b642ab(ab2b64(buf)) == buf` for every buffer |
| `Directory.Keyed` | Client.jsx:55 | the guard `!peer || !peer.pubkey` fails exactly for an absent peer, a null key and an empty key |
| `Directory.DisplayName` | Client.jsx:110 | `peerMap[from]?.username || from`: a stored non-empty username wins, otherwise the id |
| `Directory.RosterMap` | Client.jsx:91-92 | the roster object has exactly the roster's ids as keys |
| `Directory.RosterMapLastWins` | Client.jsx:91-92 | for a duplicated id the later roster element wins |
| `Directory.BuildRosterMap` | Client.jsx:91-92 | the roster loop builds an object keyed by exactly the roster ids, equal to `RosterMap` |
| `Directory.MergeRoster` | Client.jsx:93 | after `peers` the keys are the old keys plus the roster ids; ids not in the roster keep their entries |
| `Directory.MergeRosterLastWins` | Client.jsx:91-93 | after `peers` each roster id holds its last roster element's username and pubkey, whatever it held before |
| `Directory.AddJoined` | Client.jsx:97-99 | `peer-joined` sets the id to {username, pubkey null}, overwriting any key; every other id is unchanged |
| `Directory.SetPubkey` | Client.jsx:100-102 | `peer-pubkey` sets the key and keeps an existing username; an absent id gets an entry with no username; the id is keyed iff the key is truthy; others unchanged |
| `Directory.RemovePeer` | Client.jsx:103-105 | `peer-left` removes the id, leaves every other entry, and is a no-op for an absent id |
| `Directory.Reduce` | Client.jsx:88-105 | an event changes no entry of an id it does not mention |
| `Directory.ReducePointwise` | Client.jsx:88-105 | the entry for an id after an event depends only on its entry before |
| `Directory.Replay` | Client.jsx:86-105 | events handled one at a time in arrival order; an id no event mentions keeps its entry |
| `Directory.ReplayConverges` | Client.jsx:86-105 | after any trace, a peer's entry equals the entry after that peer's own events alone |
| `Directory.LeftPeerIsGone` | Client.jsx:103-105 | a peer whose last event is `peer-left` has no entry after the trace |
| `Directory.KeyPresenceFollowsLastEvent` | Client.jsx:97-102 | after a trace a peer is keyless if its last event was a join, and keyed iff the key was truthy if it was an announcement |
| `Cipher.DeriveAesKey` | Client.jsx:36-51 | fails with the first step that throws: `atob` on the peer key, `importKey`, then `deriveKey` with a null private key; otherwise the key ECDH derives from the private key and the peer key |
| `Cipher.EncryptForPeer` | Client.jsx:53-61 | throws 'no pubkey' exactly when the peer is absent or its key is null or empty; succeeds exactly when the AES key also derives; carries the drawn IV and the sealed plaintext in base64 |
| `Cipher.DecryptFromPeer` | Client.jsx:63-71 | throws 'no pubkey' exactly when the sender is absent or keyless; succeeds exactly when the key derives, both fields decode and the tag authenticates, and then returns what AES-GCM opened |
| `Cipher.DecryptInvertsEncrypt` | Client.jsx:53-71 | what one client encrypts for another, the other decrypts back to the plaintext, given ECDH agreement |
| `Session.Delivered` | Client.jsx:107-124 | a log entry exists exactly when decryption succeeds, so never for an unknown or keyless sender or before the key pair exists; it is from the sender, holds the decrypted text, and is labelled with `DisplayName` |
| `Session.Step` | Client.jsx:135-142 | a peer is skipped iff it has no truthy key, and sent to iff its encryption can succeed |
| `Session.Outcomes` | Client.jsx:134-143 | one outcome per enumerated peer, in enumeration order: outcome i is the loop body's result for peer i with IV i |
| `Session.FanOutAddressees` | Client.jsx:134-142 | the sends address exactly the peers whose encryption can succeed, in order; a failure does not stop later peers |
| `Session.ExactlyOnePerKeyedPeer` | Client.jsx:134-138 | with `Object.keys` order, each usable peer gets exactly one encr-message, and a keyless peer gets none |
| `Session.OneEchoPerSend` | Client.jsx:139 | one local echo per message sent, so no echo when no peer was sent to |
| `Session.NoPrivateKeySendsNothing` | Client.jsx:131-145 | before the key pair exists a send puts nothing on the socket and echoes nothing |
| `Session.FanOut` | Client.jsx:134-143 | the send loop appends to the socket queue exactly messages addressed to the usable peers and to the log as many echoes; nothing before the key pair exists |
| `Session.CurrentDirectoryDelivers` | Client.jsx:107-124 | an honest message from a sender the current directory holds a key for is logged with its plaintext |
| `Session.StaleHandlerDropsMessage` | Client.jsx:86-124 | read through the connect-time (empty) directory, a message the current directory would deliver is dropped |
| `Session.AnnounceKeySendScenario` | Client.jsx:86-145 | roster, key announcement, then "hi": the client announces its key, sends one encr-message to "2", echoes once |
| `Session.EarlySendScenario` | Client.jsx:29-145 | a roster before key generation: the client announces a null key, and sending "hi" to a keyed peer sends and echoes nothing |
| `Session.Client.constructor` | Client.jsx:7-16 | no socket, no id, empty directory, log, queue and text field, no private or public key |
| `Session.Client.KeyPairGenerated` | Client.jsx:31-33 | stores the private key, and the exported public key in base64, which decodes back to the raw key |
| `Session.Client.Connect` | Client.jsx:128 | the client has a socket afterwards |
| `Session.Client.SetText` | Client.jsx:170 | the text field holds the typed text |
| `Session.Client.Receive` | Client.jsx:107-124 | appends exactly the delivered entry on success and leaves the log unchanged on any failure, in particular before the key pair exists |
| `Session.Client.OnMessage` | Client.jsx:86-125 | directory follows `Reduce`; `peers` records the own id and queues one key announcement; cipher events append at most one entry; other events change nothing |
| `Session.Client.SendMessage` | Client.jsx:131-145 | without a socket nothing changes; otherwise the queue gains the fan-out's messages, the log its echoes, and the text field is cleared; before the key pair exists nothing is sent or echoed |

## Findings

| source | as written | input that shows it | evidently intended | confidence | as-written member | corrected member |
|---|---|---|---|---|---|---|
| Client.jsx:86-124 | the message listener is created inside `connect()`, so `decryptFromPeer` and the username lookup read the `peerMap` of that render, which is empty on a first connection | connect; receive `peers` listing peer "2" with its key; receive an `encr-message` that "2" sealed for us: it is dropped as 'peer has no pubkey' | decrypt and label against the current directory | high, not executed | `Session.StaleHandlerDropsMessage` | `Session.CurrentDirectoryDelivers` |

`Session.Client.Receive` and `Session.Client.OnMessage` read the current directory, as corrected.

## Left out

- WebCrypto is not modelled: P-256 key generation and export (Client.jsx:29-34), key import and ECDH derivation (Client.jsx:36-51), and AES-256-GCM. They are foreign calls. `Env.imports`, `Env.derive` and `Aead` stand for them, with the laws `Opens` and ECDH agreement as lemma preconditions. Key generation is the parameter of `KeyPairGenerated`.
- `getRandomValues` is not modelled. The IVs are parameters (`ivs`, one per enumerated peer).
- `btoa`/`atob` internals are not modelled. They are the parameter `Base64`, with the law `RoundTrips`.
- `TextEncoder`/`TextDecoder` are folded into `Aead.seal`/`Aead.open`.
- JSON parsing and serialisation are not modelled. Events arrive as parsed `Inbound` values, and `Unrecognised` stands for any other `type`.
- Socket creation, the `open` handler with its `join` message, and the `close` handler (Client.jsx:78-84, 127) are I/O. `Connect` only records that a socket exists.
- React rendering, `useEffect` bootstrapping, the random default username and editing the username or server fields are UI and are left out. `username` is fixed at construction.
- The `async` interleaving is not modelled. Events that arrive while `sendMessage` or a decrypt awaits are not interleaved: handling is strictly sequential. `SendMessage` appends the loop's messages and echoes together after the loop, which gives the same final state under sequential handling.
- The stale connect-time directory is used only in the Findings lemma. Everywhere else the model uses the current directory.
- The exact `Object.keys` order is not modelled. `SendMessage` accepts any enumeration that lists each directory id once (`EnumeratesKeys`).
- JavaScript strings are UTF-16, but the model uses Dafny `char`s (Unicode scalar values). `charCodeAt` on characters outside the Basic Multilingual Plane is not modelled, which is harmless because `atob` only yields codes below 256.
- A cache of derived keys per peer, with invalidation on key change, is not modelled, because the code has none.
- Session.FanOut: does not model `ws.send` throwing while the socket is still connecting (after a second `connect()`, whose `setWs` runs before the new socket opens while `peerMap` is kept). The source then logs a failure and echoes nothing for that peer; the model records a send and an echo.
- Cipher.EncryptForPeer: does not model the RangeError that `String.fromCharCode(...bytes)` throws when a very long plaintext exceeds the engine's argument limit. The model's `Ab2b64` is total, so encryption succeeds whenever the key derives, at any length.
- Directory.RosterMap: does not model that a roster id `"__proto__"` goes through the prototype setter of the plain object at Client.jsx:92 and never reaches `peerMap`. The model stores it like any other id.
