/**
 * Download tokens of a deployment (backend/src/core/artifacts/downloadTokens.js and the token table of
 * backend/src/store/artifactDeployRepository.js). A token is known by its hash.
 */
module DownloadTokens {
  import opened Wrappers

  type Hash = string

  const TOKEN_TTL_MS := 30 * 60 * 1000
  const TOKEN_MAX_USES := 5

  datatype Token = Token(
    artifactId: string, agentId: Option<string>, deploymentId: Option<string>, expiresAt: int, maxUses: nat, uses: nat)

  type Tokens = map<Hash, Token>

  function DropExpired(ts: Tokens, now: int): Tokens {
    map h | h in ts && ts[h].expiresAt > now :: ts[h]
  }

  function NewToken(artifactId: string, agentId: Option<string>, deploymentId: Option<string>, now: int): Token {
    Token(artifactId, agentId, deploymentId, now + TOKEN_TTL_MS, TOKEN_MAX_USES, 0)
  }

  function Revoke(ts: Tokens, deploymentId: string): Tokens {
    map h | h in ts && ts[h].deploymentId != Some(deploymentId) :: ts[h]
  }

  /** The row that `consumeToken` updates. */
  predicate Usable(ts: Tokens, h: Hash, artifactId: string, now: int) {
    h in ts && ts[h].artifactId == artifactId && ts[h].expiresAt > now && ts[h].uses < ts[h].maxUses
  }

  function CountUse(ts: Tokens, h: Hash): Tokens
    requires h in ts
  {
    ts[h := ts[h].(uses := ts[h].uses + 1)]
  }

  predicate AgentFits(token: Token, agentId: Option<string>) {
    agentId.None? || token.agentId.None? || agentId == token.agentId
  }

  datatype TokenEvent =
    | Issued(hash: Hash, artifactId: string, agentId: Option<string>, deploymentId: Option<string>, now: int)
    | Presented(hash: Hash, artifactId: string, agentId: Option<string>, now: int)
    | Revoked(ended: string)

  function After(ts: Tokens, e: TokenEvent): Tokens {
    match e
    case Issued(h, artifactId, agentId, deploymentId, now) =>
      DropExpired(ts, now)[h := NewToken(artifactId, agentId, deploymentId, now)]
    case Presented(h, artifactId, _, now) => if Usable(ts, h, artifactId, now) then CountUse(ts, h) else ts
    case Revoked(ended) => Revoke(ts, ended)
  }

  /** The download is allowed. */
  predicate Grants(ts: Tokens, e: TokenEvent) {
    e.Presented? && Usable(ts, e.hash, e.artifactId, e.now) && AgentFits(ts[e.hash], e.agentId)
  }

  class TokenTable {
    var tokens: Tokens

    constructor ()
      ensures tokens == map[]
    {
      tokens := map[];
    }

    /** `issue`; the hash is of a fresh random token. */
    method Issue(h: Hash, artifactId: string, agentId: Option<string>, deploymentId: Option<string>, now: int)
      modifies this
      ensures tokens == After(old(tokens), Issued(h, artifactId, agentId, deploymentId, now))
      ensures h in tokens && tokens[h] == Token(artifactId, agentId, deploymentId, now + 1800000, 5, 0)
      ensures forall g | g != h :: g in tokens <==> g in old(tokens) && old(tokens)[g].expiresAt > now
      ensures forall g | g != h && g in tokens :: tokens[g] == old(tokens)[g]
    {
      tokens := DropExpired(tokens, now);
      tokens := tokens[h := NewToken(artifactId, agentId, deploymentId, now)];
    }

    /** `consume`. The use is counted before the agent is compared. */
    method Consume(h: Hash, artifactId: string, agentId: Option<string>, now: int) returns (granted: bool)
      modifies this
      ensures tokens == After(old(tokens), Presented(h, artifactId, agentId, now))
      ensures granted == Grants(old(tokens), Presented(h, artifactId, agentId, now))
      ensures granted <==>
        && h in old(tokens) && old(tokens)[h].artifactId == artifactId && now < old(tokens)[h].expiresAt
        && old(tokens)[h].uses < old(tokens)[h].maxUses
        && (agentId.None? || old(tokens)[h].agentId.None? || old(tokens)[h].agentId == agentId)
      ensures tokens.Keys == old(tokens).Keys
      ensures forall g | g in tokens && g != h :: tokens[g] == old(tokens)[g]
      ensures h in tokens ==>
        var counted := tokens[h].artifactId == artifactId && now < tokens[h].expiresAt && old(tokens)[h].uses < tokens[h].maxUses;
        tokens[h] == old(tokens)[h].(uses := old(tokens)[h].uses + if counted then 1 else 0)
    {
      if !Usable(tokens, h, artifactId, now) {
        return false;
      }
      tokens := CountUse(tokens, h);
      granted := AgentFits(tokens[h], agentId);
    }

    /** `revokeForDeployment` */
    method RevokeForDeployment(deploymentId: string)
      modifies this
      ensures tokens == After(old(tokens), Revoked(deploymentId))
      ensures forall h :: h in tokens <==> h in old(tokens) && old(tokens)[h].deploymentId != Some(deploymentId)
      ensures forall h | h in tokens :: tokens[h] == old(tokens)[h]
    {
      tokens := Revoke(tokens, deploymentId);
    }
  }

  // ---------------------------------------------------------- over a token's life

  function Run(ts: Tokens, events: seq<TokenEvent>): Tokens
    decreases |events|
  {
    if events == [] then ts else Run(After(ts, events[0]), events[1..])
  }

  function GrantsOf(ts: Tokens, events: seq<TokenEvent>, h: Hash): nat
    decreases |events|
  {
    if events == [] then 0
    else (if Grants(ts, events[0]) && events[0].hash == h then 1 else 0) + GrantsOf(After(ts, events[0]), events[1..], h)
  }

  ghost predicate NeverIssued(events: seq<TokenEvent>, h: Hash) {
    forall e | e in events :: e.Issued? ==> e.hash != h
  }

  predicate WithinUses(ts: Tokens) {
    forall h | h in ts :: ts[h].uses <= ts[h].maxUses
  }

  function UsesLeft(ts: Tokens, h: Hash): nat
    requires WithinUses(ts)
  {
    if h in ts then ts[h].maxUses - ts[h].uses else 0
  }

  lemma {:induction false} GrantsAreUses(ts: Tokens, events: seq<TokenEvent>, h: Hash)
    requires WithinUses(ts) && NeverIssued(events, h)
    ensures GrantsOf(ts, events, h) <= UsesLeft(ts, h)
    ensures h in Run(ts, events) ==> h in ts && Run(ts, events)[h].(uses := ts[h].uses) == ts[h]
    ensures WithinUses(Run(ts, events))
    decreases |events|
  {
    if events != [] {
      var next := After(ts, events[0]);
      assert events[0] in events && forall e | e in events[1..] :: e in events;
      assert h in next ==> h in ts && next[h].(uses := ts[h].uses) == ts[h];
      GrantsAreUses(next, events[1..], h);
    }
  }

  /**
   * A token that is never issued again opens at most five downloads, all of its artifact, for its
   * agent when one is named, and within thirty minutes.
   */
  lemma FiveDownloads(ts: Tokens, issue: TokenEvent, events: seq<TokenEvent>, last: TokenEvent)
    requires issue.Issued? && WithinUses(ts) && NeverIssued(events, issue.hash)
    ensures GrantsOf(After(ts, issue), events, issue.hash) <= TOKEN_MAX_USES
    ensures last.Presented? && last.hash == issue.hash && Grants(Run(After(ts, issue), events), last) ==>
      && last.artifactId == issue.artifactId && last.now < issue.now + TOKEN_TTL_MS
      && (last.agentId.Some? && issue.agentId.Some? ==> last.agentId == issue.agentId)
  {
    GrantsAreUses(After(ts, issue), events, issue.hash);
  }

  /** Once its deployment is over a token opens nothing more. */
  lemma RevokedForGood(ts: Tokens, deploymentId: string, events: seq<TokenEvent>, h: Hash)
    requires WithinUses(ts) && NeverIssued(events, h)
    requires h in ts ==> ts[h].deploymentId == Some(deploymentId)
    ensures GrantsOf(After(ts, Revoked(deploymentId)), events, h) == 0
  {
    GrantsAreUses(After(ts, Revoked(deploymentId)), events, h);
  }
}
