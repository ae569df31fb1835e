/**
 The four relational tables that hold actor identity, one function per SQL statement the repositories
 issue against them, and the two independent address lookups.

 `actor.merged_into_actor_id` is a parent pointer that is never flattened; `actor_address_redirect` is
 flattened by every merge. Nothing in the schema makes an address belong to one actor only: the key of
 `actor_address` is the pair (actor_id, address).
 */
module ActorTables {
  import opened Wrappers

  type ActorId = int
  type ProposalId = int
  type Address = string

  datatype ActorRow = ActorRow(primary: Address, mergedInto: Option<ActorId>)

  datatype Tables = Tables(
    actor: map<ActorId, ActorRow>,
    actorAddress: map<(ActorId, Address), bool>, // the value is is_primary
    redirect: map<Address, ActorId>,
    proposal: map<ProposalId, ActorId>)

  datatype DbError = CheckViolation | UniqueViolation

  // ---- Addresses ----

  function LowerChar(c: char): char {
    if 'A' <= c <= 'Z' then c - 'A' + 'a' else c
  }

  function Lower(s: string): (r: string)
    ensures |r| == |s|
    ensures forall i :: 0 <= i < |s| ==> r[i] == LowerChar(s[i])
  {
    seq(|s|, i requires 0 <= i < |s| => LowerChar(s[i]))
  }

  lemma LowerIdempotent(s: string)
    ensures Lower(Lower(s)) == Lower(s)
  {
  }

  predicate IsHexDigit(c: char) {
    '0' <= c <= '9' || 'a' <= c <= 'f' || 'A' <= c <= 'F'
  }

  /** The pattern `resolveAddress` checks: 0x and forty hexadecimal digits in either case. */
  predicate MatchesAddressPattern(s: string) {
    |s| == 42 && s[0] == '0' && s[1] == 'x' && forall i :: 2 <= i < 42 ==> IsHexDigit(s[i])
  }

  /** The CHECK constraint on the address columns of `actor_address` and `actor_address_redirect`. */
  predicate Storable(p: Address) {
    p == Lower(p) && |p| == 42 && p[..2] == "0x"
  }

  // ---- Single statements ----

  predicate Live(t: Tables, a: ActorId) {
    a in t.actor && t.actor[a].mergedInto.None?
  }

  predicate IsPrimaryOf(t: Tables, a: ActorId, p: Address) {
    a in t.actor && t.actor[a].primary == p
  }

  predicate HasPrimary(t: Tables, p: Address) {
    exists a :: a in t.actor && IsPrimaryOf(t, a, p)
  }

  /** `select … from actor where primary_address = p`. */
  ghost function ActorByPrimary(t: Tables, p: Address): Option<ActorId> {
    if HasPrimary(t, p) then
      var a :| IsPrimaryOf(t, a, p);
      Some(a)
    else None
  }

  predicate Owns(t: Tables, a: ActorId, p: Address) {
    (a, p) in t.actorAddress
  }

  predicate Registered(t: Tables, p: Address) {
    exists k :: k in t.actorAddress && k.1 == p
  }

  /** `select … from actor join actor_address … where address = p`: some owner of the address. */
  ghost function OwnerByRow(t: Tables, p: Address): Option<ActorId> {
    if exists a :: Owns(t, a, p) then
      var a :| Owns(t, a, p);
      Some(a)
    else None
  }

  /** The actor insert of `findOrCreateByAddressTx`: on a primary_address conflict, read the old row. */
  ghost function InsertActor(t: Tables, p: Address, newId: ActorId): (Tables, ActorId) {
    match ActorByPrimary(t, p)
    case Some(a) => (t, a)
    case None => (t.(actor := t.actor[newId := ActorRow(p, None)]), newId)
  }

  /**
   The second statement of `findOrCreateActorAddress`. A conflict on (actor_id, address) is ignored; the
   partial unique index on primary addresses and the CHECK constraint are not.
   */
  function InsertAddressRow(t: Tables, a: ActorId, p: Address): Result<Tables, DbError> {
    if !Storable(p) then Err(CheckViolation)
    else if (a, p) in t.actorAddress then Ok(t)
    else if exists k :: k in t.actorAddress && k.1 == p && t.actorAddress[k] then Err(UniqueViolation)
    else Ok(t.(actorAddress := t.actorAddress[(a, p) := true]))
  }

  function RewriteProposals(t: Tables, secondary: ActorId, survivor: ActorId): Tables {
    t.(proposal := map i | i in t.proposal ::
      if t.proposal[i] == secondary then survivor else t.proposal[i])
  }

  function RetargetedKeys(rows: map<(ActorId, Address), bool>, secondary: ActorId, survivor: ActorId)
    : set<(ActorId, Address)>
  {
    (set k | k in rows && k.0 != secondary) + (set k | k in rows && k.0 == secondary :: (survivor, k.1))
  }

  /** `update actor_address set actor_id = survivor where actor_id = secondary`. */
  function RetargetAddresses(t: Tables, secondary: ActorId, survivor: ActorId): Result<Tables, DbError> {
    var rows := t.actorAddress;
    if secondary != survivor && exists k :: k in rows && k.0 == secondary && (survivor, k.1) in rows
    then Err(UniqueViolation)
    else Ok(t.(actorAddress := map k | k in RetargetedKeys(rows, secondary, survivor) ::
      if k in rows && k.0 != secondary then rows[k] else rows[(secondary, k.1)]))
  }

  function ClearPrimary(t: Tables, survivor: ActorId, p: Address): Tables {
    if (survivor, p) in t.actorAddress then t.(actorAddress := t.actorAddress[(survivor, p) := false]) else t
  }

  function FlattenRedirects(t: Tables, secondary: ActorId, survivor: ActorId): Tables {
    t.(redirect := map p | p in t.redirect ::
      if t.redirect[p] == secondary then survivor else t.redirect[p])
  }

  function InsertRedirect(t: Tables, p: Address, survivor: ActorId): Result<Tables, DbError> {
    if !Storable(p) then Err(CheckViolation)
    else if p in t.redirect then Err(UniqueViolation)
    else Ok(t.(redirect := t.redirect[p := survivor]))
  }

  function SetParent(t: Tables, secondary: ActorId, survivor: ActorId): Tables {
    if secondary in t.actor
    then t.(actor := t.actor[secondary := t.actor[secondary].(mergedInto := Some(survivor))])
    else t
  }

  // ---- The two lookups ----

  /** `findCurrentActorIdsByAddresses` for one address: the three coalesce arms. */
  ghost function Coalesce(t: Tables, p: Address): Option<ActorId> {
    if OwnerByRow(t, p).Some? then OwnerByRow(t, p)
    else if ActorByPrimary(t, p).Some? then ActorByPrimary(t, p)
    else if p in t.redirect then Some(t.redirect[p])
    else None
  }

  datatype Routing = Found(actor: ActorId) | Redirect(to: Address) | NotFound

  datatype RoutingError = BadAddress

  /** The three-stage lookup of `resolveAddress`, after lower-casing. */
  ghost function Route(t: Tables, p: Address): Routing {
    var byPrimary := ActorByPrimary(t, p);
    if byPrimary.Some? && Live(t, byPrimary.value) then Found(byPrimary.value)
    else if p in t.redirect && t.redirect[p] in t.actor then Redirect(t.actor[t.redirect[p]].primary)
    else
      match OwnerByRow(t, p)
      case Some(a) => if a in t.actor then Redirect(t.actor[a].primary) else NotFound
      case None => NotFound
  }

  ghost function ResolveAddress(t: Tables, raw: string): Result<Routing, RoutingError> {
    if MatchesAddressPattern(raw) then Ok(Route(t, Lower(raw))) else Err(BadAddress)
  }
}
