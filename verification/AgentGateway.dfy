/**
 * The agent gateway (idp-agent-gateway/src/gateway.js): which sockets are sessions of which
 * agents, under which credentials. Every handler runs without interruption.
 */
module AgentGateway {
  import opened Wrappers
  import opened AgentRegistry

  const CLOSE_POLICY := 1008
  const CLOSE_REPLACED := 4001
  const CLOSE_CREDENTIAL := 4003
  const MAX_SUBSCRIPTIONS_PER_WEB := 256
  const REGISTRY_WRITE_INTERVAL_MS := 30_000

  const FORWARDED_PROCESSES: set<string> := {
    "ping", "current_version", "download_file_progress", "app_logs",
    "update_version", "command_execution_result", "get_app_config",
    "deploy_event", "deploy_result", "artifact_status_result",
    "artifact_config_event", "artifact_config_result"
  }

  type Payload = Details

  /** What `parseMessage` makes of a frame. */
  datatype Incoming = BadJson | NotAMessage | Message(sender: string, process: string, agentId: Option<string>, payload: Payload)

  datatype Frame =
    | ErrorFrame
    | HandshakeAck(agentId: AgentId)
    | Pong(agentId: AgentId)
    | Command(agentId: AgentId, process: string, payload: Payload)
    | AgentEvent(agentId: AgentId, process: string, payload: Payload)

  /** An agent's socket and what the gateway knows about it. */
  class Connection {
    const claimedId: AgentId
    const credentialHash: Option<Hash>
    const connectedAt: string
    var id: Option<AgentId>
    var closed: bool
    var details: Details
    var lastPing: Option<string>
    var missedPongs: nat

    // The socket itself.
    var open: bool
    var closeCode: Option<int>
    var sent: seq<Frame>

    constructor (claimedId: AgentId, credentialHash: Option<Hash>, now: string)
      ensures this.claimedId == claimedId && this.credentialHash == credentialHash && connectedAt == now
      ensures id == None && !closed && open && sent == [] && missedPongs == 0
    {
      this.claimedId, this.credentialHash, connectedAt := claimedId, credentialHash, now;
      id, closed, details, lastPing, missedPongs := None, false, map[], None, 0;
      open, closeCode, sent := true, None, [];
    }

    method Send(frame: Frame) returns (ok: bool)
      modifies this`sent
      ensures ok == open && sent == if open then old(sent) + [frame] else old(sent)
    {
      if !open { return false; }
      sent := sent + [frame];
      return true;
    }

    method Terminate()
      modifies this`open
      ensures !open
    {
      open := false;
    }

    method CloseSocket(code: int)
      modifies this`open, this`closeCode
      ensures !open && closeCode == if old(open) then Some(code) else old(closeCode)
    {
      if open {
        open, closeCode := false, Some(code);
      }
    }
  }

  /** A backend's subscription socket. */
  class WebConnection {
    var id: Option<string>
    var subscriptions: set<AgentId>
    var open: bool
    var sent: seq<Frame>

    constructor ()
      ensures id == None && subscriptions == {} && open && sent == []
    {
      id, subscriptions, open, sent := None, {}, true, [];
    }

    predicate Wants(agentId: AgentId)
      reads this
    {
      id.Some? && agentId in subscriptions && open
    }
  }

  datatype Issued = Issued(rotated: bool) | InvalidAgentId | WriteFailed
  datatype Revoked = Revoked | Unknown | RevokeFailed
  datatype Verified = Verified | MissingCredentials | BadAgentId | UnknownAgent | NoCredential | InvalidSecret

  class Gateway {
    const persistent: bool
    var agents: Registry
    var agentSessions: map<AgentId, Connection>
    var agentConnections: set<Connection>
    var webConnections: set<WebConnection>
    var file: seq<Item>
    var lastRegistryWrite: int

    /** The connection is an open one that completed its handshake. */
    ghost predicate IsSession(c: Connection)
      reads this, c
    {
      c in agentConnections && c.id.Some?
    }

    /** What the file says about who may connect is what the registry says. */
    ghost predicate FileOk()
      reads this
    {
      RegistryOk(agents) && (persistent ==> Credentials(Load(file)) == Credentials(agents))
    }

    /**
     * Every table names the right open connections. Connections of `doomed` ids may still carry
     * an old credential: they are about to be closed.
     */
    ghost predicate SeatsOk(doomed: set<AgentId>)
      reads this, agentConnections
    {
      SeatsOkFor(agentConnections, doomed)
    }

    ghost predicate SeatsOkFor(connections: set<Connection>, doomed: set<AgentId>)
      reads this, connections
    {
      && (forall c | c in connections :: !c.closed)
      && (forall c | c in connections && c.claimedId !in doomed :: c.credentialHash == HashOf(agents, c.claimedId))
      && (forall c | c in connections && c.id.Some? ::
            && c.id == Some(c.claimedId) && c.credentialHash.Some?
            && c.claimedId in agentSessions && agentSessions[c.claimedId] == c)
      && (forall id | id in agentSessions :: agentSessions[id] in connections && agentSessions[id].id == Some(id))
    }

    ghost predicate WebsOk()
      reads this, webConnections
    {
      forall w | w in webConnections :: |w.subscriptions| <= MAX_SUBSCRIPTIONS_PER_WEB
    }

    /** Of the connections there were, those no longer in the tables are closed, their sockets too. */
    ghost predicate OthersClosed(before: set<Connection>)
      reads this, before
    {
      forall c | c in before && c !in agentConnections :: c.closed && !c.open
    }

    ghost predicate Valid()
      reads this, agentConnections, webConnections
    {
      FileOk() && SeatsOk({}) && WebsOk()
    }

    /** The session speaks for the id under the credential the registry holds now. */
    ghost predicate IsCurrent(c: Connection, id: AgentId)
      reads this, c
    {
      && c in agentConnections && c.id == Some(id) && id in agentSessions && agentSessions[id] == c
      && id in agents && c.credentialHash.Some? && agents[id].credentialHash == c.credentialHash
    }

    /** Sessions and open handshaken connections are in one-to-one correspondence, all current. */
    lemma SessionsAreCurrent()
      requires Valid()
      ensures forall c | IsSession(c) :: IsCurrent(c, c.claimedId)
      ensures forall id | id in agentSessions :: IsSession(agentSessions[id]) && IsCurrent(agentSessions[id], id)
      ensures forall id, id' | id in agentSessions && id' in agentSessions && id != id' :: agentSessions[id] != agentSessions[id']
      ensures forall id | id in agentSessions :: id in agents
    {
    }

    // --------------------------------------------------------------- registry

    constructor (persistent: bool, contents: Option<seq<Item>>, now: int)
      ensures Valid() && fresh(agentConnections) && agentConnections == {} && webConnections == {}
      ensures agentSessions == map[]
      ensures agents == if persistent && contents.Some? then Load(contents.value) else map[]
    {
      this.persistent := persistent;
      var items := if persistent then contents.GetOr([]) else [];
      agents, file := Load(items), items;
      agentSessions, agentConnections, webConnections, lastRegistryWrite := map[], {}, {}, now;
      LoadedIsOk(items);
    }

    /** Writes the registry, unless there is no file or it was written just now. Writing can fail. */
    method PersistRegistry(force: bool, now: int) returns (ok: bool)
      requires RegistryOk(agents)
      modifies this`file, this`lastRegistryWrite
      ensures old(FileOk()) ==> FileOk()
      ensures ok && force ==> FileOk()
      ensures !ok ==> file == old(file) && persistent
    {
      if !persistent || (!force && now - lastRegistryWrite < REGISTRY_WRITE_INTERVAL_MS) { return true; }
      ok := *;
      if ok {
        file := SerializeRegistry(agents);
        lastRegistryWrite := now;
      }
    }

    /** The upgrade check; the caller has hashed the presented secret. */
    method VerifyAgentCredential(agentId: string, presented: Option<Hash>) returns (r: Verified)
      requires Valid()
      ensures r == Verified <==>
        presented.Some? && IsValidAgentId(agentId) && HashOf(agents, agentId) == presented
      ensures r in {UnknownAgent, NoCredential, InvalidSecret} ==> IsValidAgentId(agentId) && HashOf(agents, agentId) != presented
    {
      if agentId == "" || presented.None? { return MissingCredentials; }
      if !IsValidAgentId(agentId) { return BadAgentId; }
      if agentId !in agents { return UnknownAgent; }
      if agents[agentId].credentialHash.None? { return NoCredential; }
      return if agents[agentId].credentialHash == presented then Verified else InvalidSecret;
    }

    /** Writes the new credential to the registry and its file, or leaves both as they were. */
    method StoreCredential(agentId: AgentId, hash: Hash, issuedAt: string, now: int) returns (ok: bool)
      requires FileOk() && IsValidAgentId(agentId) && IsCredentialHash(hash)
      modifies this`agents, this`file, this`lastRegistryWrite
      ensures FileOk()
      ensures ok ==> HashOf(agents, agentId) == Some(hash) && agents - {agentId} == old(agents) - {agentId}
      ensures !ok ==> agents == old(agents)
    {
      var existed := agentId in agents;
      var record := if existed then agents[agentId] else Record(None, None, map[], None, None);
      var stored := record.(credentialHash := Some(hash), credentialIssuedAt := Some(issuedAt));
      PutRecord(agents, agentId, stored);
      agents := agents[agentId := stored];
      ok := PersistRegistry(true, now);
      if !ok {
        agents := if existed then agents[agentId := record] else agents - {agentId};
      }
    }

    /** Issues a credential or replaces the existing one; `hash` is the new secret's. */
    method IssueCredential(agentId: string, hash: Hash, issuedAt: string, now: int) returns (r: Issued)
      requires Valid() && IsCredentialHash(hash)
      modifies this, agentConnections
      ensures Valid() && webConnections == old(webConnections)
      ensures r == InvalidAgentId <==> !IsValidAgentId(agentId)
      ensures !r.Issued? ==> agents == old(agents) && agentConnections == old(agentConnections) && agentSessions == old(agentSessions)
      ensures r.Issued? ==>
        && HashOf(agents, agentId) == Some(hash) && r.rotated == HashOf(old(agents), agentId).Some?
        && agents - {agentId} == old(agents) - {agentId}
        && agentConnections == ConnectionsOfOthers(old(agentConnections), agentId)
        && agentSessions == old(agentSessions) - {agentId}
      ensures OthersClosed(old(agentConnections))
    {
      if !IsValidAgentId(agentId) { return InvalidAgentId; }
      var rotated := HashOf(agents, agentId).Some?;
      var ok := StoreCredential(agentId, hash, issuedAt, now);
      if !ok {
        return WriteFailed;
      }
      OthersKeepHash(agents, old(agents), agentId);
      CloseAgentConnections(agentId, now);
      return Issued(rotated);
    }

    /** Deletes the record and closes the agent's connections. */
    method RevokeCredential(agentId: string, now: int) returns (r: Revoked)
      requires Valid()
      modifies this, agentConnections
      ensures Valid() && webConnections == old(webConnections)
      ensures r == Unknown <==> agentId !in old(agents)
      ensures r != Revoked ==> agents == old(agents) && agentConnections == old(agentConnections) && agentSessions == old(agentSessions)
      ensures r == Revoked ==>
        && agents == old(agents) - {agentId}
        && agentConnections == ConnectionsOfOthers(old(agentConnections), agentId)
        && agentSessions == old(agentSessions) - {agentId}
      ensures OthersClosed(old(agentConnections))
    {
      if !IsValidAgentId(agentId) || agentId !in agents { return Unknown; }
      var ok := DropCredential(agentId, now);
      if !ok { return RevokeFailed; }
      CloseAgentConnections(agentId, now);
      return Revoked;
    }

    /** Deletes the record in the registry and its file, or leaves both as they were. */
    method DropCredential(agentId: AgentId, now: int) returns (ok: bool)
      requires FileOk() && agentId in agents
      modifies this`agents, this`file, this`lastRegistryWrite
      ensures FileOk()
      ensures agents == if ok then old(agents) - {agentId} else old(agents)
      ensures forall id | id != agentId :: HashOf(agents, id) == HashOf(old(agents), id)
    {
      var record := agents[agentId];
      DropRecord(agents, agentId);
      agents := agents - {agentId};
      ok := PersistRegistry(true, now);
      if !ok {
        agents := agents[agentId := record];
      }
    }

    static ghost function ConnectionsOfOthers(connections: set<Connection>, agentId: AgentId): set<Connection> {
      set c | c in connections && c.claimedId != agentId
    }

    method CloseAgentConnections(agentId: AgentId, now: int)
      requires FileOk() && SeatsOk({agentId})
      modifies this, agentConnections
      ensures FileOk() && SeatsOk({})
      ensures agents == old(agents) && webConnections == old(webConnections)
      ensures agentConnections == ConnectionsOfOthers(old(agentConnections), agentId)
      ensures agentSessions == old(agentSessions) - {agentId}
      ensures OthersClosed(old(agentConnections))
    {
      CloseEach(agentId, now);
    }

    method CloseEach(agentId: AgentId, now: int)
      requires FileOk() && SeatsOk({agentId})
      modifies this`agentConnections, this`agentSessions, this`file, this`lastRegistryWrite, agentConnections
      ensures FileOk() && SeatsOk({agentId})
      ensures agentConnections == ConnectionsOfOthers(old(agentConnections), agentId)
      ensures agentSessions == old(agentSessions) || agentSessions == old(agentSessions) - {agentId}
      ensures OthersClosed(old(agentConnections))
    {
      var todo := agentConnections;
      while todo != {}
        invariant FileOk() && SeatsOk({agentId})
        invariant todo <= old(agentConnections) && agentConnections == ConnectionsOfOthers(old(agentConnections), agentId) + todo
        invariant agentSessions == old(agentSessions) || agentSessions == old(agentSessions) - {agentId}
        invariant OthersClosed(old(agentConnections))
        decreases todo
      {
        var c :| c in todo;
        todo := todo - {c};
        CloseIfOf(c, agentId, now);
      }
    }

    /** One turn of that loop. */
    method CloseIfOf(c: Connection, agentId: AgentId, now: int)
      requires FileOk() && SeatsOk({agentId}) && c in agentConnections
      modifies this`agentConnections, this`agentSessions, this`file, this`lastRegistryWrite
      modifies c`closed, c`open, c`closeCode
      ensures FileOk() && SeatsOk({agentId})
      ensures agentConnections == if c.claimedId == agentId then old(agentConnections) - {c} else old(agentConnections)
      ensures agentSessions == if c.claimedId == agentId && c.id.Some? then old(agentSessions) - {agentId} else old(agentSessions)
      ensures if c.claimedId == agentId then c.closed && !c.open else c.closed == old(c.closed) && c.open == old(c.open)
    {
      if c.claimedId == agentId {
        CloseAgentConnection(c, now);
      }
    }

    method CloseAgentConnection(c: Connection, now: int)
      requires FileOk() && SeatsOk({c.claimedId}) && c in agentConnections
      modifies this`agentConnections, this`agentSessions, this`file, this`lastRegistryWrite
      modifies c`closed, c`open, c`closeCode
      ensures FileOk() && SeatsOk({c.claimedId})
      ensures agentConnections == old(agentConnections) - {c} && c.closed && !c.open
      ensures agentSessions == if c.id.Some? then old(agentSessions) - {c.claimedId} else old(agentSessions)
      ensures c.closeCode == if old(c.open) then Some(CLOSE_CREDENTIAL) else old(c.closeCode)
    {
      DetachAgent(c, now, {c.claimedId});
      c.CloseSocket(CLOSE_CREDENTIAL);
    }

    // ---------------------------------------------------------- agent sockets

    method AcceptAgent(agentId: AgentId, connectedAt: string) returns (c: Connection)
      requires Valid()
      modifies this`agentConnections
      ensures Valid() && fresh(c) && c.claimedId == agentId && c.id == None
      ensures c.credentialHash == HashOf(agents, agentId)
      ensures agentConnections == old(agentConnections) + {c}
    {
      c := new Connection(agentId, HashOf(agents, agentId), connectedAt);
      agentConnections := agentConnections + {c};
    }

    /** Takes the connection out of every table; doing it again changes nothing. */
    method DetachAgent(c: Connection, now: int, ghost doomed: set<AgentId>)
      requires FileOk()
      modifies this`agentConnections, this`agentSessions, this`file, this`lastRegistryWrite, c`closed
      ensures FileOk() && c.closed
      ensures agentConnections == if old(c.closed) then old(agentConnections) else old(agentConnections) - {c}
      ensures agentSessions ==
        if !old(c.closed) && c.id.Some? && c.id.value in old(agentSessions) && old(agentSessions)[c.id.value] == c
        then old(agentSessions) - {c.id.value} else old(agentSessions)
      ensures old(SeatsOk(doomed)) ==> SeatsOk(doomed)
    {
      Unlist(c, now);
    }

    method Unlist(c: Connection, now: int)
      requires FileOk()
      modifies this`agentConnections, this`agentSessions, this`file, this`lastRegistryWrite, c`closed
      ensures FileOk() && c.closed
      ensures agentConnections == if old(c.closed) then old(agentConnections) else old(agentConnections) - {c}
      ensures agentSessions ==
        if !old(c.closed) && c.id.Some? && c.id.value in old(agentSessions) && old(agentSessions)[c.id.value] == c
        then old(agentSessions) - {c.id.value} else old(agentSessions)
    {
      if c.closed { return; }
      c.closed := true;
      agentConnections := agentConnections - {c};
      if c.id.Some? && c.id.value in agentSessions && agentSessions[c.id.value] == c {
        agentSessions := agentSessions - {c.id.value};
        var _ := PersistRegistry(true, now);
      }
    }

    /** The socket's `close` event. */
    method OnClose(c: Connection, now: int)
      requires Valid() && (c in agentConnections || c.closed)
      modifies this, c`closed, c`open
      ensures Valid() && c.closed && !c.open
      ensures agents == old(agents) && webConnections == old(webConnections)
      ensures agentConnections == old(agentConnections) - {c}
    {
      c.Terminate();
      DetachAgent(c, now, {});
    }

    method RejectAgent(c: Connection, now: int, code: int)
      requires Valid() && (c in agentConnections || c.closed)
      modifies this, c
      ensures Valid() && c.closed && !c.open
      ensures agents == old(agents) && webConnections == old(webConnections)
      ensures c.closeCode == if old(c.open) then Some(code) else old(c.closeCode)
      ensures agentConnections == old(agentConnections) - {c}
      ensures agentSessions == if old(IsSession(c)) then old(agentSessions) - {c.claimedId} else old(agentSessions)
    {
      DetachAgent(c, now, {});
      c.CloseSocket(code);
    }

    method OnHandshakeTimeout(c: Connection, now: int)
      requires Valid() && (c in agentConnections || c.closed)
      modifies this, c
      ensures Valid() && agents == old(agents) && webConnections == old(webConnections)
      ensures c.closed || c.id.Some?
      ensures OthersClosed(old(agentConnections)) && (c in agentConnections || c.closed)
      ensures agentSessions == old(agentSessions)
      ensures agentConnections == if old(c.id.Some? || c.closed) then old(agentConnections) else old(agentConnections) - {c}
    {
      if c.id.Some? || c.closed { return; }
      RejectAgent(c, now, CLOSE_POLICY);
    }

    /**
     * The handshake seats the connection exactly when it carries a credential: a connection
     * whose credential was rotated or revoked since its upgrade is already closed.
     */
    method CompleteAgentHandshake(c: Connection, payload: Payload, now: int) returns (accepted: bool)
      requires Valid() && c in agentConnections && c.id == None
      modifies this, c, Seated(agentSessions, c.claimedId)
      ensures Valid() && webConnections == old(webConnections)
      ensures accepted <==> c.credentialHash.Some?
      ensures accepted ==>
        && c.id == Some(c.claimedId) && agentSessions == old(agentSessions)[c.claimedId := c]
        && agentConnections == old(agentConnections) - Seated(old(agentSessions), c.claimedId)
        && (forall p | p in Seated(old(agentSessions), c.claimedId) :: p.closed && !p.open)
        && Credentials(agents) == Credentials(old(agents))
        && c.sent == if c.open then old(c.sent) + [HandshakeAck(c.claimedId)] else old(c.sent)
      ensures !accepted ==>
        && c.closed && !c.open && agents == old(agents)
        && agentSessions == old(agentSessions) && agentConnections == old(agentConnections) - {c}
    {
      var id := c.claimedId;
      if id !in agents || agents[id].credentialHash.None? || agents[id].credentialHash != c.credentialHash {
        RejectAgent(c, now, CLOSE_CREDENTIAL);
        return false;
      }
      WelcomeAgent(c, payload, now);
      return true;
    }

    method WelcomeAgent(c: Connection, payload: Payload, now: int)
      requires FileOk() && SeatsOk({}) && c in agentConnections && c.id == None
      requires c.claimedId in agents && c.credentialHash.Some?
      modifies this`agents, this`agentConnections, this`agentSessions, this`file, this`lastRegistryWrite
      modifies c`id, c`details, c`sent, Seated(agentSessions, c.claimedId)
      ensures FileOk() && SeatsOk({})
      ensures c.id == Some(c.claimedId) && agentSessions == old(agentSessions)[c.claimedId := c]
      ensures agentConnections == old(agentConnections) - Seated(old(agentSessions), c.claimedId)
      ensures forall p | p in Seated(old(agentSessions), c.claimedId) :: p.closed && !p.open
      ensures Credentials(agents) == Credentials(old(agents))
      ensures c.sent == if c.open then old(c.sent) + [HandshakeAck(c.claimedId)] else old(c.sent)
    {
      Seat(c, now);
      AcknowledgeHandshake(c, payload, now);
    }

    /** Gives the connection its agent's session, closing the one it replaces. */
    method Seat(c: Connection, now: int)
      requires FileOk() && SeatsOk({}) && c in agentConnections && c.id == None && c.credentialHash.Some?
      modifies this`agentConnections, this`agentSessions, this`file, this`lastRegistryWrite
      modifies c`id, Seated(agentSessions, c.claimedId)
      ensures FileOk() && SeatsOk({}) && c in agentConnections
      ensures c.id == Some(c.claimedId)
      ensures agentSessions == old(agentSessions)[c.claimedId := c]
      ensures agentConnections == old(agentConnections) - Seated(old(agentSessions), c.claimedId)
      ensures forall p | p in Seated(old(agentSessions), c.claimedId) :: p.closed && !p.open
    {
      var id := c.claimedId;
      if id in agentSessions && agentSessions[id] != c {
        ReplaceSeat(c, agentSessions[id], now);
      } else {
        c.id := Some(id);
        agentSessions := agentSessions[id := c];
      }
    }

    method ReplaceSeat(c: Connection, previous: Connection, now: int)
      requires FileOk() && SeatsOk({}) && c in agentConnections && c.id == None && c.credentialHash.Some?
      requires c.claimedId in agentSessions && previous == agentSessions[c.claimedId]
      modifies this`agentConnections, this`agentSessions, this`file, this`lastRegistryWrite
      modifies c`id, previous
      ensures FileOk() && SeatsOk({}) && c in agentConnections
      ensures c.id == Some(c.claimedId) && agentSessions == old(agentSessions)[c.claimedId := c]
      ensures agentConnections == old(agentConnections) - {previous} && previous.closed && !previous.open
    {
      TakeOver(c, previous);
      Unlist(previous, now);
      previous.CloseSocket(CLOSE_REPLACED);
    }

    /** The seat is the new connection's; the one before is still listed. */
    method TakeOver(c: Connection, previous: Connection)
      requires SeatsOk({}) && c in agentConnections && c.id == None && c.credentialHash.Some?
      requires c.claimedId in agentSessions && previous == agentSessions[c.claimedId]
      modifies this`agentSessions, c`id
      ensures SeatsOkFor(agentConnections - {previous}, {}) && previous != c && !previous.closed && previous.id == Some(c.claimedId)
      ensures c.id == Some(c.claimedId) && agentSessions == old(agentSessions)[c.claimedId := c]
    {
      c.id := Some(c.claimedId);
      agentSessions := agentSessions[c.claimedId := c];
    }

    static ghost function Seated(sessions: map<AgentId, Connection>, id: AgentId): set<Connection> {
      if id in sessions then {sessions[id]} else {}
    }

    /** The handshake's details go into the record; its credential stays. */
    method AcknowledgeHandshake(c: Connection, payload: Payload, now: int)
      requires FileOk() && SeatsOk({}) && c in agentConnections && c.claimedId in agents
      modifies this`agents, this`file, this`lastRegistryWrite, c`details, c`sent
      ensures FileOk() && SeatsOk({}) && Credentials(agents) == Credentials(old(agents))
      ensures agents == old(agents)[c.claimedId :=
        old(agents)[c.claimedId].(connectedAt := Some(c.connectedAt), lastPing := None, details := SanitizeDetails(payload))]
      ensures c.sent == if c.open then old(c.sent) + [HandshakeAck(c.claimedId)] else old(c.sent)
    {
      StoreDetails(c, payload);
      var _ := PersistRegistry(true, now);
      var _ := c.Send(HandshakeAck(c.claimedId));
    }

    method StoreDetails(c: Connection, payload: Payload)
      requires FileOk() && SeatsOk({}) && c in agentConnections && c.claimedId in agents
      modifies this`agents, c`details
      ensures FileOk() && SeatsOk({}) && Credentials(agents) == Credentials(old(agents))
      ensures agents == old(agents)[c.claimedId :=
        old(agents)[c.claimedId].(connectedAt := Some(c.connectedAt), lastPing := None, details := SanitizeDetails(payload))]
    {
      SanitizeTwice(payload);
      c.details := SanitizeDetails(payload);
      assert SeatsOk({});
      UpdateDetails(c.claimedId, agents[c.claimedId].(connectedAt := Some(c.connectedAt), lastPing := None, details := c.details));
    }

    /** A record changes in what does not decide who may connect. */
    method UpdateDetails(id: AgentId, r: Record)
      requires FileOk() && SeatsOk({}) && id in agents && IsKeptRecord(r)
      requires r.credentialHash == agents[id].credentialHash && r.credentialIssuedAt == agents[id].credentialIssuedAt
      modifies this`agents
      ensures FileOk() && SeatsOk({}) && Credentials(agents) == Credentials(old(agents))
      ensures agents == old(agents)[id := r]
    {
      KeepCredential(agents, id, r);
      PutRecord(agents, id, r);
      agents := agents[id := r];
    }

    // ---------------------------------------------------------------- messages

    /**
     * An agent's message. It is forwarded to subscribers only when it comes from the agent's
     * current session, names the session's id, and is of a forwarded kind.
     */
    method HandleAgentMessage(c: Connection, m: Incoming, lastPing: string, now: int) returns (forwarded: bool)
      requires Valid() && (c in agentConnections || c.closed)
      modifies this, c, Seated(agentSessions, c.claimedId), webConnections`sent
      ensures Valid() && webConnections == old(webConnections)
      ensures forwarded <==>
        && !old(c.closed) && m.Message? && m.sender == "agent"
        && old(c.id.Some?) && m.agentId == old(c.id) && m.process in FORWARDED_PROCESSES
      ensures forwarded ==> IsCurrent(c, m.agentId.value)
      ensures c.closed <==>
        || old(c.closed)
        || (m.Message?
         && (m.sender != "agent"
             || if old(c.id).Some? then m.agentId != old(c.id)
                else m.process != "handshake" || m.agentId != Some(c.claimedId) || c.credentialHash.None?))
      ensures c.closed && !old(c.closed) ==> !c.open
      ensures OthersClosed(old(agentConnections)) && (c in agentConnections || c.closed)
      ensures agentConnections <= old(agentConnections)
      ensures Credentials(agents) == Credentials(old(agents))
      ensures forall w | w in webConnections ::
        w.sent == if forwarded && w.id.Some? && m.agentId.value in w.subscriptions && w.open
                  then old(w.sent) + [AgentEvent(m.agentId.value, m.process, m.payload)] else old(w.sent)
    {
      forwarded := false;
      if c.closed { return; }
      if m.BadJson? {
        var _ := c.Send(ErrorFrame);
        return;
      }
      if m.NotAMessage? { return; }
      if m.sender != "agent" {
        RejectAgent(c, now, CLOSE_POLICY);
        return;
      }
      if c.id.None? {
        HandleFirstMessage(c, m, now);
        return;
      }
      if m.agentId != c.id {
        RejectAgent(c, now, CLOSE_POLICY);
        return;
      }
      forwarded := HandleSessionMessage(c, m, lastPing, now);
    }

    /** Before its handshake a connection may say nothing else. */
    method HandleFirstMessage(c: Connection, m: Incoming, now: int)
      requires Valid() && c in agentConnections && c.id == None && m.Message? && m.sender == "agent"
      modifies this, c, Seated(agentSessions, c.claimedId)
      ensures Valid() && webConnections == old(webConnections)
      ensures OthersClosed(old(agentConnections)) && agentConnections <= old(agentConnections)
      ensures (c in agentConnections || c.closed) && Credentials(agents) == Credentials(old(agents))
      ensures c.closed <==> m.process != "handshake" || m.agentId != Some(c.claimedId) || c.credentialHash.None?
      ensures c.closed ==> !c.open
    {
      if m.process != "handshake" || m.agentId != Some(c.claimedId) {
        RejectAgent(c, now, CLOSE_POLICY);
      } else {
        var _ := CompleteAgentHandshake(c, m.payload, now);
      }
    }

    /** A session's own message: a ping is recorded and answered, forwarded kinds are passed on. */
    method HandleSessionMessage(c: Connection, m: Incoming, lastPing: string, now: int) returns (forwarded: bool)
      requires FileOk() && SeatsOk({}) && IsSession(c) && m.Message? && m.agentId == c.id
      modifies this`agents, this`file, this`lastRegistryWrite, c`lastPing, c`sent, webConnections`sent
      ensures FileOk() && SeatsOk({}) && IsSession(c)
      ensures Credentials(agents) == Credentials(old(agents))
      ensures c.sent == if m.process == "ping" && c.open then old(c.sent) + [Pong(c.claimedId)] else old(c.sent)
      ensures forwarded <==> m.process in FORWARDED_PROCESSES
      ensures forall w | w in webConnections ::
        w.sent == if forwarded && w.id.Some? && c.claimedId in w.subscriptions && w.open
                  then old(w.sent) + [AgentEvent(c.claimedId, m.process, m.payload)] else old(w.sent)
    {
      if m.process == "ping" {
        RecordPing(c, lastPing, now);
      }
      forwarded := m.process in FORWARDED_PROCESSES;
      if forwarded {
        Forward(c.claimedId, m.process, m.payload);
      }
    }

    method RecordPing(c: Connection, lastPing: string, now: int)
      requires FileOk() && SeatsOk({}) && c in agentConnections
      modifies this`agents, this`file, this`lastRegistryWrite, c`lastPing, c`sent
      ensures FileOk() && SeatsOk({}) && Credentials(agents) == Credentials(old(agents))
      ensures c.claimedId in agents ==> agents[c.claimedId].lastPing == Some(lastPing)
      ensures c.sent == if c.open then old(c.sent) + [Pong(c.claimedId)] else old(c.sent)
    {
      c.lastPing := Some(lastPing);
      StorePing(c.claimedId, lastPing);
      var _ := PersistRegistry(false, now);
      var _ := c.Send(Pong(c.claimedId));
    }

    method StorePing(id: AgentId, lastPing: string)
      requires FileOk() && SeatsOk({})
      modifies this`agents
      ensures FileOk() && SeatsOk({}) && Credentials(agents) == Credentials(old(agents))
      ensures agents == if id in old(agents) then old(agents)[id := old(agents)[id].(lastPing := Some(lastPing))] else old(agents)
    {
      if id in agents {
        agents := agents[id := agents[id].(lastPing := Some(lastPing))];
        assert Credentials(agents) == Credentials(old(agents));
      }
    }

    /** One frame to every open backend socket that subscribed to the agent, nothing to the others. */
    method Forward(agentId: AgentId, process: string, payload: Payload)
      modifies webConnections`sent
      ensures forall w | w in webConnections ::
        w.sent == if w.id.Some? && agentId in w.subscriptions && w.open
                  then old(w.sent) + [AgentEvent(agentId, process, payload)] else old(w.sent)
    {
      var todo := webConnections;
      while todo != {}
        invariant todo <= webConnections
        invariant forall w | w in todo :: w.sent == old(w.sent)
        invariant forall w | w in webConnections && w !in todo ::
          w.sent == if w.Wants(agentId) then old(w.sent) + [AgentEvent(agentId, process, payload)] else old(w.sent)
        decreases todo
      {
        var w :| w in todo;
        todo := todo - {w};
        if w.Wants(agentId) {
          w.sent := w.sent + [AgentEvent(agentId, process, payload)];
        }
      }
    }

    /** A command reaches the agent's current session, or nobody. */
    method SendCommand(agentId: AgentId, process: string, payload: Payload) returns (delivered: bool)
      requires Valid()
      modifies agentSessions.Values`sent
      ensures Valid()
      ensures delivered <==> agentId in agentSessions && agentSessions[agentId].open
      ensures forall id | id in agentSessions ::
        agentSessions[id].sent ==
          if delivered && id == agentId then old(agentSessions[id].sent) + [Command(agentId, process, payload)]
          else old(agentSessions[id].sent)
      ensures delivered ==> IsCurrent(agentSessions[agentId], agentId)
    {
      if agentId !in agentSessions || agentSessions[agentId].closed { return false; }
      delivered := agentSessions[agentId].Send(Command(agentId, process, payload));
    }

    // --------------------------------------------------------------- heartbeat

    method OnPong(c: Connection)
      requires Valid() && c in agentConnections
      modifies c`missedPongs
      ensures Valid() && c.missedPongs == 0
    {
      c.missedPongs := 0;
    }

    method CheckHeartbeat(c: Connection, now: int)
      requires FileOk() && SeatsOk({}) && c in agentConnections
      modifies this`agentConnections, this`agentSessions, this`file, this`lastRegistryWrite
      modifies c`closed, c`open, c`missedPongs
      ensures FileOk() && SeatsOk({})
      ensures agentConnections == if old(c.missedPongs) >= 2 then old(agentConnections) - {c} else old(agentConnections)
      ensures old(c.missedPongs) >= 2 ==> c.closed && !c.open
      ensures old(c.missedPongs) < 2 ==> c.missedPongs == old(c.missedPongs) + 1 && c.open == old(c.open)
    {
      if c.missedPongs >= 2 {
        DetachAgent(c, now, {});
        c.Terminate();
      } else {
        c.missedPongs := c.missedPongs + 1;
      }
    }

    /** Every connection that missed two pongs is ended; the others are asked for one more. */
    method CheckHeartbeats(now: int)
      requires Valid()
      modifies this`agentConnections, this`agentSessions, this`file, this`lastRegistryWrite, agentConnections
      ensures Valid()
      ensures agentConnections == set c | c in old(agentConnections) && old(c.missedPongs) < 2
      ensures forall c | c in old(agentConnections) ::
        if old(c.missedPongs) < 2 then c.missedPongs == old(c.missedPongs) + 1 && c.open == old(c.open) else c.closed && !c.open
      ensures OthersClosed(old(agentConnections))
    {
      ghost var all := agentConnections;
      ghost var kept := set c | c in all && c.missedPongs < 2;
      var todo := agentConnections;
      while todo != {}
        invariant FileOk() && SeatsOk({}) && todo <= all
        invariant agentConnections == kept + todo
        invariant forall c | c in todo :: c.missedPongs == old(c.missedPongs) && c.open == old(c.open)
        invariant forall c | c in all && c !in todo ::
          if old(c.missedPongs) < 2 then c.missedPongs == old(c.missedPongs) + 1 && c.open == old(c.open) else c.closed && !c.open
        decreases todo
      {
        var c :| c in todo;
        todo := todo - {c};
        CheckHeartbeat(c, now);
      }
    }

    // -------------------------------------------------------------- web sockets

    method AcceptWeb() returns (w: WebConnection)
      requires Valid()
      modifies this`webConnections
      ensures Valid() && fresh(w) && webConnections == old(webConnections) + {w}
      ensures w.id == None && w.subscriptions == {}
    {
      w := new WebConnection();
      webConnections := webConnections + {w};
    }

    method OnWebHandshakeTimeout(w: WebConnection)
      requires Valid()
      modifies w`open
      ensures Valid() && w.open == (old(w.open) && w.id.Some?)
    {
      if w.id.None? { w.open := false; }
    }

    /** A backend's message: one handshake, then subscriptions under the limit; anything else closes it. */
    method HandleWebMessage(w: WebConnection, m: Incoming, agentId: string, target: string)
      requires Valid() && w in webConnections
      modifies w
      ensures Valid()
      ensures w.open <==>
        && old(w.open)
        && (m.Message? ==>
              m.sender == "web"
              && if old(w.id).Some? then m.agentId == old(w.id) else m.process == "handshake" && IsValidAgentId(agentId))
      ensures w.id ==
        if old(w.id).None? && m.Message? && m.sender == "web" && m.process == "handshake" && IsValidAgentId(agentId)
        then Some(agentId) else old(w.id)
      ensures w.sent ==
        if !old(w.open) then old(w.sent)
        else if m.BadJson? then old(w.sent) + [ErrorFrame]
        else if w.id != old(w.id) then old(w.sent) + [HandshakeAck(agentId)]
        else old(w.sent)
      ensures w.subscriptions ==
        if m.Message? && m.sender == "web" && old(w.id).Some? && m.agentId == old(w.id) && IsValidAgentId(target) then
          if m.process == "unsubscribe" then old(w.subscriptions) - {target}
          else if m.process == "subscribe" && |old(w.subscriptions)| < MAX_SUBSCRIPTIONS_PER_WEB then old(w.subscriptions) + {target}
          else old(w.subscriptions)
        else old(w.subscriptions)
    {
      if m.BadJson? {
        if w.open { w.sent := w.sent + [ErrorFrame]; }
        return;
      }
      if m.NotAMessage? { return; }
      if m.sender != "web" {
        w.open := false;
        return;
      }
      if w.id.None? {
        if m.process != "handshake" || !IsValidAgentId(agentId) {
          w.open := false;
          return;
        }
        w.id := Some(agentId);
        if w.open { w.sent := w.sent + [HandshakeAck(agentId)]; }
        return;
      }
      if m.agentId != w.id {
        w.open := false;
        return;
      }
      if m.process == "subscribe" || m.process == "unsubscribe" {
        if !IsValidAgentId(target) { return; }
        if m.process == "unsubscribe" {
          w.subscriptions := w.subscriptions - {target};
        } else if |w.subscriptions| < MAX_SUBSCRIPTIONS_PER_WEB {
          w.subscriptions := w.subscriptions + {target};
        }
      }
    }

    method OnWebClose(w: WebConnection)
      requires Valid()
      modifies this`webConnections
      ensures Valid() && webConnections == old(webConnections) - {w}
    {
      webConnections := webConnections - {w};
    }
  }

  // ------------------------------------------------------------------ whole runs

  /** Connections are named by the order of their upgrades. */
  datatype Event =
    | Upgrade(agentId: string, presented: Option<Hash>)
    | Says(who: nat, message: Incoming)
    | SocketCloses(who: nat)
    | SocketBreaks(who: nat)
    | HandshakeTimesOut(who: nat)
    | Pongs(who: nat)
    | Heartbeat
    | Issue(agentId: string, hash: Hash)
    | Revoke(agentId: string)
    | Tell(agentId: AgentId, process: string, payload: Payload)
    | WebUpgrade
    | WebSays(who: nat, message: Incoming, agentId: string, target: string)
    | WebCloses(who: nat)
    | WebHandshakeTimesOut(who: nat)

  /** An event and the clock when its handler runs, as text and in milliseconds. */
  datatype Timed = Timed(event: Event, at: string, now: int)

  predicate OfWeb(e: Event) {
    e.WebUpgrade? || e.WebSays? || e.WebCloses? || e.WebHandshakeTimesOut?
  }

  predicate OfSocket(e: Event) {
    e.Says? || e.SocketCloses? || e.SocketBreaks? || e.HandshakeTimesOut? || e.Pongs?
  }

  /** Every open connection of the gateway is among `conns`, and every other one of them is closed. */
  ghost predicate Accounted(g: Gateway, conns: seq<Connection>)
    reads g, conns
  {
    && (forall c | c in conns :: c in g.agentConnections || c.closed)
    && (forall c | c in g.agentConnections :: c in conns)
  }

  ghost predicate WebsAccounted(g: Gateway, webs: seq<WebConnection>)
    reads g
  {
    forall w | w in g.webConnections :: w in webs
  }

  /** Only a checked credential opens a connection. */
  ghost predicate Credentialed(g: Gateway)
    reads g
  {
    forall c | c in g.agentConnections :: c.credentialHash.Some?
  }

  /**
   * Whatever happens, in whatever order and at whatever times, and however often writing the registry fails: the
   * gateway stays valid, so every session is current all the time.
   */
  method Serve(events: seq<Timed>, persistent: bool, contents: Option<seq<Item>>, start: int)
    returns (g: Gateway, conns: seq<Connection>, webs: seq<WebConnection>)
    requires forall e | e in events && e.event.Issue? :: IsCredentialHash(e.event.hash)
    ensures g.Valid() && Accounted(g, conns) && WebsAccounted(g, webs) && Credentialed(g)
    ensures forall id | id in g.agentSessions :: g.IsCurrent(g.agentSessions[id], id)
  {
    g := new Gateway(persistent, contents, start);
    conns, webs := [], [];
    var i := 0;
    while i < |events|
      invariant i <= |events| && fresh(g)
      invariant forall j | 0 <= j < |conns| :: fresh(conns[j])
      invariant forall j | 0 <= j < |webs| :: fresh(webs[j])
      invariant g.Valid() && Accounted(g, conns) && WebsAccounted(g, webs) && Credentialed(g)
    {
      assert forall c | c in g.agentConnections :: c in conns;
      var Timed(event, at, now) := events[i];
      if OfWeb(event) {
        webs := ServeWeb(g, webs, conns, event);
      } else {
        conns := ServeOne(g, conns, webs, event, at, now);
      }
      i := i + 1;
    }
    g.SessionsAreCurrent();
  }

  method ServeWeb(g: Gateway, webs: seq<WebConnection>, ghost conns: seq<Connection>, e: Event) returns (webs': seq<WebConnection>)
    requires g.Valid() && Accounted(g, conns) && WebsAccounted(g, webs) && OfWeb(e)
    modifies g`webConnections, webs
    ensures g.Valid() && Accounted(g, conns) && WebsAccounted(g, webs')
    ensures webs <= webs' && forall j | |webs| <= j < |webs'| :: fresh(webs'[j])
  {
    webs' := webs;
    match e
    case WebUpgrade =>
      var w := g.AcceptWeb();
      webs' := webs + [w];
    case WebSays(who, m, agentId, target) =>
      if who < |webs| && webs[who] in g.webConnections { g.HandleWebMessage(webs[who], m, agentId, target); }
    case WebCloses(who) =>
      if who < |webs| { g.OnWebClose(webs[who]); }
    case WebHandshakeTimesOut(who) =>
      if who < |webs| { g.OnWebHandshakeTimeout(webs[who]); }
  }

  /** The upgrade request: the credential is checked, then the connection accepted. */
  method ServeUpgrade(g: Gateway, conns: seq<Connection>, id: string, presented: Option<Hash>, at: string) returns (conns': seq<Connection>)
    requires g.Valid() && Accounted(g, conns) && Credentialed(g)
    modifies g`agentConnections
    ensures g.Valid() && Accounted(g, conns') && Credentialed(g)
    ensures conns <= conns' && forall j | |conns| <= j < |conns'| :: fresh(conns'[j])
    ensures conns' == conns <==> !(presented.Some? && IsValidAgentId(id) && HashOf(g.agents, id) == presented)
  {
    conns' := conns;
    var r := g.VerifyAgentCredential(id, presented);
    if r == Verified {
      var c := g.AcceptAgent(id, at);
      conns' := conns + [c];
    }
  }

  method ServeOne(g: Gateway, conns: seq<Connection>, webs: seq<WebConnection>, e: Event, at: string, now: int)
    returns (conns': seq<Connection>)
    requires g.Valid() && Accounted(g, conns) && WebsAccounted(g, webs) && Credentialed(g) && !OfWeb(e)
    requires e.Issue? ==> IsCredentialHash(e.hash)
    modifies g, g.agentConnections, conns, g.webConnections`sent
    ensures g.Valid() && Accounted(g, conns') && Credentialed(g) && g.webConnections == old(g.webConnections)
    ensures conns <= conns' && forall j | |conns| <= j < |conns'| :: fresh(conns'[j])
  {
    conns' := conns;
    if OfSocket(e) {
      if e.who < |conns| { ServeSocket(g, conns, conns[e.who], webs, e, at, now); }
      return;
    }
    match e
    case Upgrade(id, presented) => conns' := ServeUpgrade(g, conns, id, presented, at);
    case Heartbeat => g.CheckHeartbeats(now);
    case Issue(id, hash) => var _ := g.IssueCredential(id, hash, at, now);
    case Revoke(id) => var _ := g.RevokeCredential(id, now);
    case Tell(id, process, payload) => var _ := g.SendCommand(id, process, payload);
  }

  /** What comes in on one agent's socket, or happens to it. */
  method ServeSocket(g: Gateway, ghost conns: seq<Connection>, c: Connection, ghost webs: seq<WebConnection>, e: Event, at: string, now: int)
    requires g.Valid() && Accounted(g, conns) && WebsAccounted(g, webs) && Credentialed(g) && c in conns
    requires OfSocket(e)
    modifies g, g.agentConnections, conns, g.webConnections`sent
    ensures g.Valid() && Accounted(g, conns) && Credentialed(g) && g.webConnections == old(g.webConnections)
  {
    match e
    case Says(_, m) => var _ := g.HandleAgentMessage(c, m, at, now);
    case SocketCloses(_) => g.OnClose(c, now);
    case SocketBreaks(_) => c.Terminate();
    case HandshakeTimesOut(_) => g.OnHandshakeTimeout(c, now);
    case Pongs(_) => if !c.closed { g.OnPong(c); }
  }
}
