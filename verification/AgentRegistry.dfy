/**
 * The agent registry of idp-agent-gateway/src/gateway.js: its records, and the file they are
 * written to and loaded from.
 */
module AgentRegistry {
  import opened Wrappers

  type AgentId = string
  type Hash = string
  type Details = map<string, string>

  datatype Record = Record(
    connectedAt: Option<string>, lastPing: Option<string>, details: Details,
    credentialHash: Option<Hash>, credentialIssuedAt: Option<string>)

  type Registry = map<AgentId, Record>

  predicate IsAlphanumeric(c: char) {
    'A' <= c <= 'Z' || 'a' <= c <= 'z' || '0' <= c <= '9'
  }

  predicate IsValidAgentId(id: string) {
    && 3 <= |id| <= 128 && IsAlphanumeric(id[0])
    && forall i | 1 <= i < |id| :: IsAlphanumeric(id[i]) || id[i] in {'.', '_', '-'}
  }

  predicate IsCredentialHash(h: string) {
    |h| == 64 && forall c | c in h :: '0' <= c <= '9' || 'a' <= c <= 'f'
  }

  const DETAIL_FIELDS: set<string> := {"version", "agent_version", "os_info"}

  function Cut(text: string): string {
    if |text| <= 256 then text else text[..256]
  }

  function SanitizeDetails(payload: Details): Details {
    map f | f in payload && f in DETAIL_FIELDS :: Cut(payload[f])
  }

  /** One element of the registry file, as far as it parses. */
  datatype Item = Item(
    id: string, connectedAt: Option<string>, lastPing: Option<string>, details: Details,
    credentialHash: Option<string>, credentialIssuedAt: Option<string>)

  function RecordOf(item: Item): Record {
    var hash := if item.credentialHash.Some? && IsCredentialHash(item.credentialHash.value) then item.credentialHash else None;
    Record(item.connectedAt, item.lastPing, SanitizeDetails(item.details), hash,
           if hash.Some? then item.credentialIssuedAt else None)
  }

  /** A later element replaces an earlier one with the same id. */
  function Load(items: seq<Item>): Registry {
    if items == [] then map[]
    else
      var m, item := Load(items[..|items| - 1]), items[|items| - 1];
      if IsValidAgentId(item.id) then m[item.id := RecordOf(item)] else m
  }

  function ItemOf(id: AgentId, r: Record): Item {
    Item(id, r.connectedAt, r.lastPing, r.details, r.credentialHash, r.credentialIssuedAt)
  }

  predicate IsKeptRecord(r: Record) {
    && r.details == SanitizeDetails(r.details)
    && (r.credentialHash.Some? ==> IsCredentialHash(r.credentialHash.value))
    && (r.credentialHash.None? ==> r.credentialIssuedAt.None?)
  }

  ghost predicate RegistryOk(m: Registry) {
    forall id | id in m :: IsValidAgentId(id) && IsKeptRecord(m[id])
  }

  // ------------------------------------------------------------- what is accepted

  /** An id: letters, digits, dots, underscores and hyphens, and none of the three at the start. */
  lemma IdsMean(id: string)
    ensures IsValidAgentId(id) <==>
      3 <= |id| <= 128
      && (forall c | c in id :: 'a' <= c <= 'z' || 'A' <= c <= 'Z' || '0' <= c <= '9' || c == '.' || c == '_' || c == '-')
      && id[0] != '.' && id[0] != '_' && id[0] != '-'
  {
    assert |id| > 0 ==> id[0] in id;
    if IsValidAgentId(id) {
      forall c | c in id ensures IsAlphanumeric(c) || c in {'.', '_', '-'} {
        var i :| 0 <= i < |id| && id[i] == c;
      }
    } else if 3 <= |id| <= 128 && IsAlphanumeric(id[0]) {
      var i :| 1 <= i < |id| && !(IsAlphanumeric(id[i]) || id[i] in {'.', '_', '-'});
      assert id[i] in id;
    }
  }

  lemma HashesMean(h: string)
    ensures IsCredentialHash(h) <==> |h| == 64 && forall c | c in h :: c in "0123456789abcdef"
  {
    forall c: char ensures ('0' <= c <= '9' || 'a' <= c <= 'f') <==> c in "0123456789abcdef" {
      HexDigits(c);
    }
  }

  lemma HexDigits(c: char)
    ensures ('0' <= c <= '9' || 'a' <= c <= 'f') <==> c in "0123456789abcdef"
  {
    if '0' <= c <= '9' {
      assert "0123456789abcdef"[c as int - '0' as int] == c;
    } else if 'a' <= c <= 'f' {
      assert "0123456789abcdef"[c as int - 'a' as int + 10] == c;
    }
  }

  /** Of the details three fields are kept, each up to 256 characters. */
  lemma DetailsMean(payload: Details)
    ensures SanitizeDetails(payload).Keys == payload.Keys * {"version", "agent_version", "os_info"}
    ensures forall f | f in SanitizeDetails(payload) ::
      SanitizeDetails(payload)[f] <= payload[f]
      && |SanitizeDetails(payload)[f]| == if |payload[f]| <= 256 then |payload[f]| else 256
  {
  }

  /** The last element of the file with an id makes its record; an id no element has is not there. */
  lemma {:induction false} LoadMeans(items: seq<Item>, i: nat)
    requires i < |items| && forall j | i < j < |items| :: items[j].id != items[i].id
    ensures items[i].id in Load(items) <==> IsValidAgentId(items[i].id)
    ensures items[i].id in Load(items) ==>
      var r, item := Load(items)[items[i].id], items[i];
      var kept := item.credentialHash.Some? && IsCredentialHash(item.credentialHash.value);
      r.connectedAt == item.connectedAt && r.lastPing == item.lastPing && r.details == SanitizeDetails(item.details)
      && r.credentialHash == (if kept then item.credentialHash else None)
      && r.credentialIssuedAt == (if kept then item.credentialIssuedAt else None)
    decreases |items|
  {
    if i < |items| - 1 {
      LoadMeans(items[..|items| - 1], i);
    } else {
      LoadedIds(items[..i], items[i].id);
    }
  }

  lemma {:induction false} LoadedIds(items: seq<Item>, id: AgentId)
    ensures id in Load(items) ==> IsValidAgentId(id) && exists i :: 0 <= i < |items| && items[i].id == id
    decreases |items|
  {
    if items != [] {
      var front := items[..|items| - 1];
      LoadedIds(front, id);
      if id in Load(front) {
        var i :| 0 <= i < |front| && front[i].id == id;
        assert items[i].id == id;
      }
    }
  }

  /** Two registries agree on who may connect exactly when they have the same ids with the same credentials. */
  lemma CredentialsMean(m: Registry, m': Registry)
    ensures Credentials(m) == Credentials(m') <==>
      m.Keys == m'.Keys
      && forall id | id in m :: m[id].credentialHash == m'[id].credentialHash && m[id].credentialIssuedAt == m'[id].credentialIssuedAt
  {
    if Credentials(m) == Credentials(m') {
      assert Credentials(m).Keys == m.Keys && Credentials(m').Keys == m'.Keys;
      forall id | id in m ensures m[id].credentialHash == m'[id].credentialHash && m[id].credentialIssuedAt == m'[id].credentialIssuedAt {
        assert Credentials(m)[id] == Credentials(m')[id];
      }
    }
  }

  lemma SanitizeTwice(payload: Details)
    ensures SanitizeDetails(SanitizeDetails(payload)) == SanitizeDetails(payload)
  {
  }

  lemma {:induction false} LoadedIsOk(items: seq<Item>)
    ensures RegistryOk(Load(items))
  {
    if items != [] {
      LoadedIsOk(items[..|items| - 1]);
      SanitizeTwice(items[|items| - 1].details);
    }
  }

  /** The credential of an id; None for an unknown id or one without a credential. */
  function HashOf(m: Registry, id: AgentId): Option<Hash> {
    if id in m then m[id].credentialHash else None
  }

  /** The part of a registry that decides who may connect. */
  function Credentials(m: Registry): map<AgentId, (Option<Hash>, Option<string>)> {
    map id | id in m :: (m[id].credentialHash, m[id].credentialIssuedAt)
  }

  lemma PutRecord(m: Registry, id: AgentId, r: Record)
    requires RegistryOk(m) && IsValidAgentId(id) && IsKeptRecord(r)
    ensures RegistryOk(m[id := r]) && m[id := r] - {id} == m - {id}
    ensures id in m ==> m[id := r][id := m[id]] == m
    ensures id !in m ==> m[id := r] - {id} == m
  {
  }

  lemma DropRecord(m: Registry, id: AgentId)
    requires RegistryOk(m) && id in m
    ensures RegistryOk(m - {id}) && (m - {id})[id := m[id]] == m
    ensures forall other | other != id :: HashOf(m - {id}, other) == HashOf(m, other)
  {
  }

  lemma OthersKeepHash(m: Registry, m': Registry, id: AgentId)
    requires m - {id} == m' - {id}
    ensures forall other | other != id :: HashOf(m, other) == HashOf(m', other)
  {
    forall other | other != id ensures HashOf(m, other) == HashOf(m', other) {
      assert other in m <==> other in m - {id};
      assert other in m' <==> other in m' - {id};
      assert other in m ==> m[other] == (m - {id})[other];
      assert other in m' ==> m'[other] == (m' - {id})[other];
    }
  }

  lemma KeepCredential(m: Registry, id: AgentId, r: Record)
    requires id in m && r.credentialHash == m[id].credentialHash && r.credentialIssuedAt == m[id].credentialIssuedAt
    ensures Credentials(m[id := r]) == Credentials(m)
    ensures forall other :: HashOf(m[id := r], other) == HashOf(m, other)
  {
  }

  lemma LoadAppend(items: seq<Item>, id: AgentId, r: Record)
    requires IsValidAgentId(id) && IsKeptRecord(r)
    ensures Load(items + [ItemOf(id, r)]) == Load(items)[id := r]
  {
    var all := items + [ItemOf(id, r)];
    assert all[..|all| - 1] == items;
  }

  function Without(m: Registry, ids: set<AgentId>): Registry {
    map id | id in m && id !in ids :: m[id]
  }

  lemma WithoutOneLess(m: Registry, ids: set<AgentId>, id: AgentId)
    requires id in ids && id in m
    ensures Without(m, ids)[id := m[id]] == Without(m, ids - {id})
  {
  }

  /** Written in any order; loading the file gives the whole registry back. */
  method SerializeRegistry(m: Registry) returns (items: seq<Item>)
    requires RegistryOk(m)
    ensures Load(items) == m
    ensures |items| == |m|
  {
    var todo := m.Keys;
    items := [];
    assert |m| == |m.Keys|;
    while todo != {}
      invariant todo <= m.Keys
      invariant Load(items) == Without(m, todo)
      invariant |items| + |todo| == |m|
      decreases |todo|
    {
      var id :| id in todo;
      LoadAppend(items, id, m[id]);
      WithoutOneLess(m, todo, id);
      items := items + [ItemOf(id, m[id])];
      todo := todo - {id};
    }
  }
}
