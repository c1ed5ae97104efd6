/**
 * The peer directory: the client's `peerMap` state, id -> { username,
 * pubkey }, and the functional updates the socket's message handler
 * applies to it for the four membership events.
 */
module Directory {
  import opened Wrappers
  import opened Protocol

  /**
   * One directory entry. `username` is absent for an entry that a
   * `peer-pubkey` created for an id the client had not seen; `pubkey`
   * is null until the peer announces it.
   */
  datatype PeerRecord = PeerRecord(username: Option<string>, pubkey: Option<string>)

  type PeerMap = map<string, PeerRecord>

  /** The entry for `id`, if any. */
  function Entry(dir: PeerMap, id: string): Option<PeerRecord> {
    if id in dir then Some(dir[id]) else None
  }

  /**
   * The guard of both crypto helpers passes: the peer is present and its
   * pubkey is truthy (neither null nor the empty string).
   */
  predicate Keyed(dir: PeerMap, id: string)
    ensures Keyed(dir, id) <==> Entry(dir, id).Some? && Entry(dir, id).value.pubkey !in {None, Some("")}
  {
    id in dir && dir[id].pubkey.Some? && dir[id].pubkey.value != ""
  }

  /** `peerMap[id]?.username || id`: the stored username unless absent or empty. */
  function DisplayName(dir: PeerMap, id: string): (n: string)
    ensures n == id || (id in dir && dir[id].username == Some(n) && n != "")
    ensures id in dir && dir[id].username.Some? && dir[id].username.value != "" ==> n == dir[id].username.value
  {
    if id in dir && dir[id].username.Some? && dir[id].username.value != "" then dir[id].username.value else id
  }

  /** The ids a roster names. */
  function Ids(peers: seq<RosterEntry>): set<string> {
    set p | p in peers :: p.id
  }

  function RecordOf(p: RosterEntry): PeerRecord {
    PeerRecord(Some(p.username), p.pubkey)
  }

  /** The object the roster loop builds: one entry per id, a later element overwriting an earlier one. */
  function RosterMap(peers: seq<RosterEntry>): (m: PeerMap)
    ensures m.Keys == Ids(peers)
  {
    if peers == [] then map[]
    else
      var last := peers[|peers| - 1];
      assert peers == peers[..|peers| - 1] + [last];
      RosterMap(peers[..|peers| - 1])[last.id := RecordOf(last)]
  }

  /** The roster element that wins for its id is the last one carrying that id. */
  lemma {:induction false} RosterMapLastWins(peers: seq<RosterEntry>, k: nat)
    requires k < |peers|
    requires forall j :: k < j < |peers| ==> peers[j].id != peers[k].id
    ensures peers[k].id in RosterMap(peers)
    ensures RosterMap(peers)[peers[k].id] == RecordOf(peers[k])
  {
    if k < |peers| - 1 {
      RosterMapLastWins(peers[..|peers| - 1], k);
    }
  }

  /** The loop `for (const p of data.peers) map[p.id] = {...}`. */
  method BuildRosterMap(peers: seq<RosterEntry>) returns (m: PeerMap)
    ensures m.Keys == Ids(peers)
    ensures m == RosterMap(peers)
  {
    m := map[];
    for i := 0 to |peers|
      invariant m == RosterMap(peers[..i])
    {
      assert peers[..i + 1][..i] == peers[..i];
      m := m[peers[i].id := RecordOf(peers[i])];
    }
    assert peers[..|peers|] == peers;
  }

  /** `peers`: `{...prev, ...map}`: roster entries overwrite, other ids stay. */
  function MergeRoster(dir: PeerMap, peers: seq<RosterEntry>): (r: PeerMap)
    ensures r.Keys == dir.Keys + Ids(peers)
    ensures forall id :: id in dir && id !in Ids(peers) ==> r[id] == dir[id]
  {
    dir + RosterMap(peers)
  }

  /**
   * After a roster merge each listed id holds its last roster entry,
   * whatever was stored for it before.
   */
  lemma MergeRosterLastWins(dir: PeerMap, peers: seq<RosterEntry>, k: nat)
    requires k < |peers|
    requires forall j :: k < j < |peers| ==> peers[j].id != peers[k].id
    ensures MergeRoster(dir, peers)[peers[k].id] == RecordOf(peers[k])
  {
    RosterMapLastWins(peers, k);
  }

  /** `peer-joined`: the id gets `{ username, pubkey: null }`, replacing any entry it had. */
  function AddJoined(dir: PeerMap, id: string, username: string): (r: PeerMap)
    ensures Entry(r, id) == Some(PeerRecord(Some(username), None))
    ensures !Keyed(r, id)
    ensures r.Keys == dir.Keys + {id}
    ensures forall other :: other != id ==> Entry(r, other) == Entry(dir, other)
  {
    dir[id := PeerRecord(Some(username), None)]
  }

  /**
   * `peer-pubkey`: `{ ...(prev[id] || {}), pubkey }`. The key is set, an
   * existing username kept, and an unknown id gets an entry with no username.
   */
  function SetPubkey(dir: PeerMap, id: string, pubkey: Option<string>): (r: PeerMap)
    ensures id in r && r[id].pubkey == pubkey
    ensures r[id].username == if id in dir then dir[id].username else None
    ensures Keyed(r, id) <==> pubkey.Some? && pubkey.value != ""
    ensures r.Keys == dir.Keys + {id}
    ensures forall other :: other != id ==> Entry(r, other) == Entry(dir, other)
  {
    var prev := if id in dir then dir[id] else PeerRecord(None, None);
    dir[id := prev.(pubkey := pubkey)]
  }

  /** `peer-left`: delete the entry; nothing happens for an unknown id. */
  function RemovePeer(dir: PeerMap, id: string): (r: PeerMap)
    ensures id !in r
    ensures r.Keys == dir.Keys - {id}
    ensures forall other :: other != id ==> Entry(r, other) == Entry(dir, other)
    ensures id !in dir ==> r == dir
  {
    dir - {id}
  }

  /** Whether an inbound event can change the entry for `id`. */
  predicate Touches(ev: Inbound, id: string) {
    match ev
    case Peers(_, peers) => id in Ids(peers)
    case PeerJoined(joined, _) => joined == id
    case PeerPubkey(keyed, _) => keyed == id
    case PeerLeft(left) => left == id
    case _ => false
  }

  /** The directory part of the message handler: one event, one functional update. */
  function Reduce(dir: PeerMap, ev: Inbound): (r: PeerMap)
    ensures forall id :: !Touches(ev, id) ==> Entry(r, id) == Entry(dir, id)
  {
    match ev
    case Peers(_, peers) => MergeRoster(dir, peers)
    case PeerJoined(id, username) => AddJoined(dir, id, username)
    case PeerPubkey(id, pubkey) => SetPubkey(dir, id, pubkey)
    case PeerLeft(id) => RemovePeer(dir, id)
    case _ => dir
  }

  /** The entry for `id` after an event depends on nothing but its entry before. */
  lemma ReducePointwise(d1: PeerMap, d2: PeerMap, ev: Inbound, id: string)
    requires Entry(d1, id) == Entry(d2, id)
    ensures Entry(Reduce(d1, ev), id) == Entry(Reduce(d2, ev), id)
  {
  }

  /** The events of a trace that can change the entry for `id`, in order. */
  function Touching(evs: seq<Inbound>, id: string): (t: seq<Inbound>)
    ensures forall e :: e in t ==> e in evs && Touches(e, id)
  {
    if evs == [] then []
    else if Touches(evs[|evs| - 1], id) then Touching(evs[..|evs| - 1], id) + [evs[|evs| - 1]]
    else Touching(evs[..|evs| - 1], id)
  }

  /**
   * The directory after a sequence of events, handled one at a time in
   * arrival order; an id no event mentions keeps its entry.
   */
  function Replay(dir: PeerMap, evs: seq<Inbound>): (r: PeerMap)
    ensures forall id :: Touching(evs, id) == [] ==> Entry(r, id) == Entry(dir, id)
  {
    if evs == [] then dir else Reduce(Replay(dir, evs[..|evs| - 1]), evs[|evs| - 1])
  }

  /**
   * Convergence: the entry for `id` after a trace is the entry after the
   * events about `id` alone, so events about other peers, however they
   * interleave, do not affect it.
   */
  lemma {:induction false} ReplayConverges(dir: PeerMap, evs: seq<Inbound>, id: string)
    ensures Entry(Replay(dir, evs), id) == Entry(Replay(dir, Touching(evs, id)), id)
  {
    if evs != [] {
      var pre, last := evs[..|evs| - 1], evs[|evs| - 1];
      ReplayConverges(dir, pre, id);
      if Touches(last, id) {
        var t := Touching(pre, id) + [last];
        assert t[..|t| - 1] == Touching(pre, id);
        ReducePointwise(Replay(dir, pre), Replay(dir, Touching(pre, id)), last, id);
      }
    }
  }

  /** A peer whose last event is `peer-left` has no entry: no stale key survives its departure. */
  lemma {:induction false} LeftPeerIsGone(dir: PeerMap, evs: seq<Inbound>, id: string)
    requires Touching(evs, id) != []
    requires Touching(evs, id)[|Touching(evs, id)| - 1] == PeerLeft(id)
    ensures id !in Replay(dir, evs)
  {
    ReplayConverges(dir, evs, id);
  }

  /**
   * Key presence follows the last event about the peer: keyless after a
   * join, keyed after an announcement exactly when the key is truthy.
   */
  lemma {:induction false} KeyPresenceFollowsLastEvent(dir: PeerMap, evs: seq<Inbound>, id: string)
    requires Touching(evs, id) != []
    ensures var last := Touching(evs, id)[|Touching(evs, id)| - 1];
      && (last.PeerJoined? ==> id in Replay(dir, evs) && !Keyed(Replay(dir, evs), id))
      && (last.PeerPubkey? ==> (Keyed(Replay(dir, evs), id) <==> last.pubkey.Some? && last.pubkey.value != ""))
  {
    ReplayConverges(dir, evs, id);
    var t := Touching(evs, id);
    var last := t[|t| - 1];
    assert last in t;
  }
}
