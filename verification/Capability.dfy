/** Capability grants with a rolling hourly limit (src/noyra/capability/store.py).

    Times are milliseconds, as the store writes them, and may go backwards from one call to the next.
    A use is one row of `capability_uses`; the limit is counted over those rows. */
module Capability {
  import opened Wrappers

  type GrantId = nat
  type Subject = nat

  datatype Kind = WebRead | FilesystemRead | FilesystemWrite | Publish | Message | Wallet

  const HOUR := 3600000

  /** What a grant covers, after validation: a directory tree, some hosts, any public host, or names. */
  datatype Scope =
    | Tree(root: seq<nat>)
    | Hosts(hosts: set<nat>)
    | PublicHttps
    | Exact(names: set<nat>)

  /** A resource as the scope check sees it.  `admissible` is an https URL with no credentials,
      fragment, odd port or private address. */
  datatype Resource =
    | Path(parts: seq<nat>)
    | Url(host: nat, admissible: bool)
    | Named(name: nat)
    | Blank

  /** A row of `capability_grants`; `intact` says that it still matches its state hash. */
  datatype GrantRow = GrantRow(subject: Subject, kind: Kind, scope: Scope, limit: nat, sideEffect: bool,
                         requiresApproval: bool, active: bool, createdAt: int, expiresAt: Option<int>,
                         revokedAt: Option<int>, intact: bool)

  datatype UseRow = UseRow(grant: GrantId, at: int, resource: Resource, action: Option<nat>)

  datatype Store = Store(grants: map<GrantId, GrantRow>, uses: seq<UseRow>, actions: map<nat, Subject>)

  /** A question to the store. */
  datatype Request = Request(subject: Subject, kind: Kind, resource: Resource, sideEffect: bool, now: int)

  datatype Choice = Selected(grant: GrantId) | NoGrant | Corrupt

  // ---------------------------------------------------------------- what authorizes a request

  /** `_scope_matches`: a tree covers its root and everything below it. */
  predicate Covers(scope: Scope, resource: Resource) {
    match scope
    case Tree(root) => resource.Path? && root <= resource.parts
    case Hosts(hosts) => resource.Url? && resource.admissible && resource.host in hosts
    case PublicHttps => resource.Url? && resource.admissible
    case Exact(names) => resource.Named? && resource.name in names
  }

  function UsesAfter(uses: seq<UseRow>, grant: GrantId, cutoff: int): nat {
    if uses == [] then 0
    else
      var last := uses[|uses| - 1];
      UsesAfter(uses[..|uses| - 1], grant, cutoff) + (if last.grant == grant && last.at > cutoff then 1 else 0)
  }

  predicate Expired(grant: GrantRow, now: int) {
    grant.expiresAt.Some? && grant.expiresAt.value <= now
  }

  predicate HasRoom(grant: GrantRow, id: GrantId, uses: seq<UseRow>, now: int) {
    grant.limit == 0 || UsesAfter(uses, id, now - HOUR) < grant.limit
  }

  /** The grant would be charged for the request if it came first. */
  predicate Authorizes(s: Store, id: GrantId, request: Request)
    requires id in s.grants
  {
    var grant := s.grants[id];
    && grant.active && grant.subject == request.subject && grant.kind == request.kind
    && !Expired(grant, request.now)
    && (request.sideEffect ==> grant.sideEffect)
    && !grant.requiresApproval
    && Covers(grant.scope, request.resource)
    && HasRoom(grant, id, s.uses, request.now)
  }

  // ---------------------------------------------------------------- the rule in its own words

  /** The uses of a grant in the hour that ends now, as positions in the ledger. */
  ghost function InLastHour(uses: seq<UseRow>, grant: GrantId, now: int): set<nat> {
    set i: nat | i < |uses| && uses[i].grant == grant && now - 3_600_000 < uses[i].at
  }

  /** The target is the root itself or lies below it. */
  ghost predicate Below(root: seq<nat>, target: seq<nat>) {
    |root| <= |target| && forall i | 0 <= i < |root| :: target[i] == root[i]
  }

  /** The resource is of the sort the scope is about, and inside it. */
  ghost predicate InScope(scope: Scope, resource: Resource) {
    match resource
    case Path(parts) => scope.Tree? && Below(scope.root, parts)
    case Url(host, admissible) => admissible && (scope.PublicHttps? || (scope.Hosts? && host in scope.hosts))
    case Named(name) => scope.Exact? && name in scope.names
    case Blank => false
  }

  /** An active grant of the subject for this kind of operation, not expired, with the right to side effects if
      they are asked for, without an approval pending, over the resource, and with room in the hour. */
  ghost predicate Permits(s: Store, id: GrantId, request: Request)
    requires id in s.grants
  {
    var grant := s.grants[id];
    && grant.active && grant.subject == request.subject && grant.kind == request.kind
    && !grant.requiresApproval && (grant.sideEffect || !request.sideEffect)
    && (match grant.expiresAt case None => true case Some(end) => request.now < end)
    && InScope(grant.scope, request.resource)
    && (grant.limit > 0 ==> |InLastHour(s.uses, id, request.now)| < grant.limit)
  }

  lemma {:induction false} UsesAreCounted(uses: seq<UseRow>, grant: GrantId, now: int)
    ensures UsesAfter(uses, grant, now - HOUR) == |InLastHour(uses, grant, now)|
  {
    if uses == [] {
      assert InLastHour(uses, grant, now) == {};
    } else {
      var n := |uses| - 1;
      UsesAreCounted(uses[..n], grant, now);
      var before, all := InLastHour(uses[..n], grant, now), InLastHour(uses, grant, now);
      assert n !in before;
      assert all == if uses[n].grant == grant && now - HOUR < uses[n].at then before + {n} else before;
    }
  }

  /** The tests of the selection loop together are that rule. */
  lemma AuthorizesIff(s: Store, id: GrantId, request: Request)
    requires id in s.grants
    ensures Authorizes(s, id, request) <==> Permits(s, id, request)
  {
    UsesAreCounted(s.uses, id, request.now);
  }

  /** A deeper root permits no more: whatever lies below it lies below every directory above it. */
  lemma DeeperRootPermitsLess(root: seq<nat>, deeper: seq<nat>, target: seq<nat>)
    requires Below(root, deeper) && Below(deeper, target)
    ensures Below(root, target)
  {
    forall i | 0 <= i < |root| ensures target[i] == root[i] {
      assert deeper[i] == root[i];
    }
  }

  /** Row `i` of the query decides: it is the first that is corrupt or permits the request. */
  ghost predicate Decides(s: Store, request: Request, rows: seq<GrantId>, i: nat)
    requires forall k | 0 <= k < |rows| :: rows[k] in s.grants
  {
    && i < |rows| && (!s.grants[rows[i]].intact || Permits(s, rows[i], request))
    && forall k | 0 <= k < i :: s.grants[rows[k]].intact && !Permits(s, rows[k], request)
  }

  ghost predicate Undecided(s: Store, request: Request, rows: seq<GrantId>)
    requires forall k | 0 <= k < |rows| :: rows[k] in s.grants
  {
    forall k | 0 <= k < |rows| :: s.grants[rows[k]].intact && !Permits(s, rows[k], request)
  }

  /** A row of the subject and kind that has not been revoked. */
  predicate IsCandidate(grant: GrantRow, request: Request) {
    grant.active && grant.subject == request.subject && grant.kind == request.kind
  }

  /** What the `SELECT ... ORDER BY created_at` returns: every active grant of the subject and kind,
      oldest first, ties in any order. */
  ghost predicate QueryResult(s: Store, request: Request, rows: seq<GrantId>) {
    && (forall i | 0 <= i < |rows| :: rows[i] in s.grants)
    && (forall id | id in s.grants ::
          id in rows <==> IsCandidate(s.grants[id], request))
    && (forall i, j | 0 <= i < j < |rows| :: s.grants[rows[i]].createdAt <= s.grants[rows[j]].createdAt)
  }

  /** The right choice: the row that decides, if there is one; no older grant would do, and if none is chosen,
      none would. */
  ghost predicate Chosen(s: Store, request: Request, rows: seq<GrantId>, choice: Choice)
    requires forall k | 0 <= k < |rows| :: rows[k] in s.grants
  {
    && (choice == NoGrant <==> Undecided(s, request, rows))
    && (forall i: nat | Decides(s, request, rows, i) ::
          choice == if s.grants[rows[i]].intact then Selected(rows[i]) else Corrupt)
    && (choice != NoGrant ==> exists i: nat :: Decides(s, request, rows, i))
    && (choice == NoGrant ==> forall id | id in s.grants :: !Permits(s, id, request))
    && (choice.Selected? ==>
          && choice.grant in s.grants && Permits(s, choice.grant, request) && s.grants[choice.grant].intact
          && (forall id | id in s.grants && s.grants[id].createdAt < s.grants[choice.grant].createdAt ::
                !Permits(s, id, request)))
  }

  lemma DecidedBy(s: Store, request: Request, rows: seq<GrantId>, i: nat)
    requires QueryResult(s, request, rows) && Decides(s, request, rows, i)
    ensures Chosen(s, request, rows, if s.grants[rows[i]].intact then Selected(rows[i]) else Corrupt)
  {
    forall j: nat | Decides(s, request, rows, j) ensures j == i {
    }
    forall other | other in s.grants && s.grants[other].createdAt < s.grants[rows[i]].createdAt
      ensures !Permits(s, other, request)
    {
      if other in rows {
        var k :| 0 <= k < |rows| && rows[k] == other;
      }
    }
  }

  lemma NonePermits(s: Store, request: Request, rows: seq<GrantId>)
    requires QueryResult(s, request, rows) && Undecided(s, request, rows)
    ensures Chosen(s, request, rows, NoGrant)
  {
    forall id | id in s.grants ensures !Permits(s, id, request) {
      if id in rows {
        var k :| 0 <= k < |rows| && rows[k] == id;
      }
    }
  }

  /** The answer of the selection loop: the first row that authorizes, unless a corrupt row comes
      before it. */
  function FirstOf(s: Store, request: Request, rows: seq<GrantId>): Choice
    requires forall i | 0 <= i < |rows| :: rows[i] in s.grants
  {
    if rows == [] then NoGrant
    else if !s.grants[rows[0]].intact then Corrupt
    else if Authorizes(s, rows[0], request) then Selected(rows[0])
    else FirstOf(s, request, rows[1..])
  }

  lemma {:induction false} FirstOfIsChosen(s: Store, request: Request, rows: seq<GrantId>, i: nat)
    requires QueryResult(s, request, rows) && i <= |rows|
    requires forall k | 0 <= k < i :: s.grants[rows[k]].intact && !Permits(s, rows[k], request)
    ensures Chosen(s, request, rows, FirstOf(s, request, rows[i..]))
    decreases |rows| - i
  {
    if i == |rows| {
      NonePermits(s, request, rows);
    } else {
      AuthorizesIff(s, rows[i], request);
      if !s.grants[rows[i]].intact || Permits(s, rows[i], request) {
        DecidedBy(s, request, rows, i);
      } else {
        assert rows[i..][1..] == rows[i + 1..];
        FirstOfIsChosen(s, request, rows, i + 1);
      }
    }
  }

  /** `_select_connection`. */
  method Select(s: Store, request: Request, rows: seq<GrantId>) returns (choice: Choice)
    requires QueryResult(s, request, rows)
    ensures choice == FirstOf(s, request, rows) && Chosen(s, request, rows, choice)
  {
    FirstOfIsChosen(s, request, rows, 0);
    assert rows[0..] == rows;
    choice := SelectFirst(s, request, rows);
  }

  /** Its loop. */
  method SelectFirst(s: Store, request: Request, rows: seq<GrantId>) returns (choice: Choice)
    requires forall i | 0 <= i < |rows| :: rows[i] in s.grants && IsCandidate(s.grants[rows[i]], request)
    ensures choice == FirstOf(s, request, rows)
  {
    for i := 0 to |rows|
      invariant FirstOf(s, request, rows) == FirstOf(s, request, rows[i..])
    {
      var id := rows[i];
      var grant := s.grants[id];
      assert rows[i..][1..] == rows[i + 1..];
      if !grant.intact {
        return Corrupt;
      }
      if Expired(grant, request.now) || (request.sideEffect && !grant.sideEffect) || grant.requiresApproval
         || !Covers(grant.scope, request.resource) {
        continue;
      }
      if grant.limit > 0 && UsesAfter(s.uses, id, request.now - HOUR) >= grant.limit {
        continue;
      }
      assert Authorizes(s, id, request);
      return Selected(id);
    }
    return NoGrant;
  }

  // ---------------------------------------------------------------- the store over time

  datatype Operation =
    | Granted(id: GrantId, grant: GrantRow)
    | Revoked(id: GrantId, at: int)
    | Charged(id: GrantId, request: Request, action: Option<nat>)
    | ActionRecorded(newAction: nat, subject: Subject)

  ghost predicate Steps(s: Store, after: Store, operation: Operation) {
    match operation
    case Granted(id, grant) =>
      id !in s.grants && grant.active && after == s.(grants := s.grants[id := grant])
    case Revoked(id, at) =>
      && id in s.grants && s.grants[id].active
      && after == s.(grants := s.grants[id := s.grants[id].(active := false, revokedAt := Some(at), intact := true)])
    case Charged(id, request, action) =>
      && id in s.grants && Authorizes(s, id, request)
      && after == s.(uses := s.uses + [UseRow(id, request.now, request.resource, action)])
    case ActionRecorded(action, subject) =>
      action !in s.actions && after == s.(actions := s.actions[action := subject])
  }

  /** Every use was charged to a grant that, by the rows before it, still had room in its hour. */
  ghost predicate WithinLimits(s: Store) {
    forall i | 0 <= i < |s.uses| ::
      && s.uses[i].grant in s.grants
      && HasRoom(s.grants[s.uses[i].grant], s.uses[i].grant, s.uses[..i], s.uses[i].at)
  }

  lemma StepKeepsLimits(s: Store, after: Store, operation: Operation)
    requires WithinLimits(s) && Steps(s, after, operation)
    ensures WithinLimits(after)
  {
    forall i | 0 <= i < |after.uses|
      ensures after.uses[i].grant in after.grants
      ensures HasRoom(after.grants[after.uses[i].grant], after.uses[i].grant, after.uses[..i], after.uses[i].at)
    {
      if i < |s.uses| {
        assert after.uses[i] == s.uses[i] && after.uses[..i] == s.uses[..i];
      } else {
        assert after.uses[..i] == s.uses;
      }
    }
  }

  /** Uses of a grant in the hour `(from, from + HOUR]`, by their own timestamps. */
  function UsesWithin(uses: seq<UseRow>, grant: GrantId, from: int): nat {
    if uses == [] then 0
    else
      var last := uses[|uses| - 1];
      UsesWithin(uses[..|uses| - 1], grant, from)
      + (if last.grant == grant && from < last.at <= from + HOUR then 1 else 0)
  }

  /** The same as positions in the ledger. */
  ghost function InHour(uses: seq<UseRow>, grant: GrantId, from: int): set<nat> {
    set i: nat | i < |uses| && uses[i].grant == grant && from < uses[i].at <= from + 3_600_000
  }

  lemma {:induction false} WithinIsCounted(uses: seq<UseRow>, grant: GrantId, from: int)
    ensures UsesWithin(uses, grant, from) == |InHour(uses, grant, from)|
  {
    if uses == [] {
      assert InHour(uses, grant, from) == {};
    } else {
      var n := |uses| - 1;
      WithinIsCounted(uses[..n], grant, from);
      var before, all := InHour(uses[..n], grant, from), InHour(uses, grant, from);
      assert n !in before;
      assert all == if uses[n].grant == grant && from < uses[n].at <= from + HOUR then before + {n} else before;
    }
  }

  lemma {:induction false} WithinIsAfter(uses: seq<UseRow>, grant: GrantId, from: int, cutoff: int)
    requires cutoff <= from
    ensures UsesWithin(uses, grant, from) <= UsesAfter(uses, grant, cutoff)
  {
    if uses != [] {
      WithinIsAfter(uses[..|uses| - 1], grant, from, cutoff);
    }
  }

  /** No hour holds more uses of a grant than its positive limit, in whatever order the timestamps
      came: the use charged last among them counted all the others. */
  lemma {:induction false} NoHourOverflows(s: Store, n: nat, grant: GrantId, from: int)
    requires WithinLimits(s) && n <= |s.uses| && grant in s.grants && s.grants[grant].limit > 0
    ensures UsesWithin(s.uses[..n], grant, from) <= s.grants[grant].limit
  {
    if n > 0 {
      NoHourOverflows(s, n - 1, grant, from);
      var last := s.uses[n - 1];
      assert s.uses[..n][..n - 1] == s.uses[..n - 1];
      if last.grant == grant && from < last.at <= from + HOUR {
        assert HasRoom(s.grants[grant], grant, s.uses[..n - 1], last.at);
        WithinIsAfter(s.uses[..n - 1], grant, from, last.at - HOUR);
      }
    }
  }

  ghost predicate IsRun(stores: seq<Store>, operations: seq<Operation>) {
    && |stores| == |operations| + 1
    && forall i | 0 <= i < |operations| :: Steps(stores[i], stores[i + 1], operations[i])
  }

  /** Over any trace, even with the clock going backwards, every hour stays within the limit. */
  lemma {:induction false} LimitHoldsOverRuns(stores: seq<Store>, operations: seq<Operation>, k: nat,
                                              grant: GrantId, from: int)
    requires IsRun(stores, operations) && WithinLimits(stores[0]) && k < |stores|
    ensures WithinLimits(stores[k])
    ensures grant in stores[k].grants && stores[k].grants[grant].limit > 0 ==>
              |InHour(stores[k].uses, grant, from)| <= stores[k].grants[grant].limit
  {
    if k > 0 {
      LimitHoldsOverRuns(stores, operations, k - 1, grant, from);
      StepKeepsLimits(stores[k - 1], stores[k], operations[k - 1]);
    }
    if grant in stores[k].grants && stores[k].grants[grant].limit > 0 {
      NoHourOverflows(stores[k], |stores[k].uses|, grant, from);
      assert stores[k].uses[..|stores[k].uses|] == stores[k].uses;
      WithinIsCounted(stores[k].uses, grant, from);
    }
  }

  /** A revoked grant stays revoked and is never charged again; its limit and scope never change. */
  lemma {:induction false} RevokedIsNeverCharged(stores: seq<Store>, operations: seq<Operation>, i: nat, j: nat,
                                                 id: GrantId)
    requires IsRun(stores, operations) && i <= j < |stores|
    requires id in stores[i].grants && !stores[i].grants[id].active
    ensures id in stores[j].grants && stores[j].grants[id] == stores[i].grants[id]
    ensures stores[i].uses <= stores[j].uses
    ensures forall k | |stores[i].uses| <= k < |stores[j].uses| :: stores[j].uses[k].grant != id
    decreases j
  {
    if i < j {
      RevokedIsNeverCharged(stores, operations, i, j - 1, id);
      assert Steps(stores[j - 1], stores[j], operations[j - 1]);
    }
  }

  // ---------------------------------------------------------------- the store's interface

  predicate SideEffectKind(kind: Kind) {
    kind in {FilesystemWrite, Publish, Message, Wallet}
  }

  /** `_validate_scope`. */
  predicate ValidScope(kind: Kind, scope: Scope, sideEffect: bool) {
    && (match kind
        case FilesystemRead => scope.Tree?
        case FilesystemWrite => scope.Tree?
        case WebRead => scope.PublicHttps? || (scope.Hosts? && scope.hosts != {})
        case _ => scope.Exact? && scope.names != {})
    && (SideEffectKind(kind) ==> sideEffect)
  }

  /** The resources an operation of this kind is about. */
  predicate Concerns(kind: Kind, resource: Resource) {
    match resource
    case Path(_) => kind == FilesystemRead || kind == FilesystemWrite
    case Url(_, _) => kind == WebRead
    case Named(_) => kind in {Publish, Message, Wallet}
    case Blank => false
  }

  /** A scope is valid for a kind exactly if some resource of that kind lies in it, and the kinds that act on
      the world say so. */
  lemma ValidScopeIff(kind: Kind, scope: Scope, sideEffect: bool)
    ensures ValidScope(kind, scope, sideEffect)
        <==> && (exists resource :: InScope(scope, resource) && Concerns(kind, resource))
             && (kind in {FilesystemWrite, Publish, Message, Wallet} ==> sideEffect)
  {
    match scope
    case Tree(root) =>
      assert InScope(scope, Path(root));
    case Hosts(hosts) =>
      if hosts != {} {
        var host :| host in hosts;
        assert InScope(scope, Url(host, true));
      }
    case PublicHttps =>
      assert InScope(scope, Url(0, true));
    case Exact(names) =>
      if names != {} {
        var name :| name in names;
        assert InScope(scope, Named(name));
      }
  }

  /** `revalidate_use`: the charged grant still covers the operation; the rate is not looked at again. */
  predicate StillAuthorizes(s: Store, id: GrantId, request: Request) {
    && id in s.grants
    && var grant := s.grants[id];
       && grant.subject == request.subject && grant.intact && grant.active && grant.kind == request.kind
       && !grant.requiresApproval && (request.sideEffect ==> grant.sideEffect)
       && !Expired(grant, request.now) && Covers(grant.scope, request.resource)
  }

  /** It is the rule itself with no use counted. */
  lemma StillAuthorizesIff(s: Store, id: GrantId, request: Request)
    ensures StillAuthorizes(s, id, request)
        <==> id in s.grants && s.grants[id].intact && Permits(s.(uses := []), id, request)
  {
    assert InLastHour([], id, request.now) == {};
  }

  /** What `use` does once a grant has been looked for. */
  function ChargeOutcome(s: Store, request: Request, action: Option<nat>, choice: Choice): Result<GrantId> {
    if request.resource.Blank? then Failure("blank")
    else if choice == Corrupt then Failure("integrity")
    else if choice == NoGrant then Failure("denied")
    else if action.Some? && (action.value !in s.actions || s.actions[action.value] != request.subject)
    then Failure("denied")
    else Success(choice.grant)
  }

  /** The action, if one is named, is the subject's own. */
  ghost predicate OwnAction(s: Store, subject: Subject, action: Option<nat>) {
    action.None? || (action.value in s.actions && s.actions[action.value] == subject)
  }

  /** What `use` answers: the oldest grant that permits the request, for an action of the subject's own; an
      integrity error if a corrupt row comes first; a denial otherwise. */
  ghost predicate Answered(s: Store, request: Request, action: Option<nat>, rows: seq<GrantId>, result: Result<GrantId>)
    requires forall k | 0 <= k < |rows| :: rows[k] in s.grants
  {
    && (result == Failure("blank") <==> request.resource.Blank?)
    && (result.Success? ==>
          && result.value in s.grants && Permits(s, result.value, request) && OwnAction(s, request.subject, action)
          && (forall id | id in s.grants && Permits(s, id, request) ::
                s.grants[result.value].createdAt <= s.grants[id].createdAt))
    && (!request.resource.Blank? && Undecided(s, request, rows) ==> result == Failure("denied"))
    && (!request.resource.Blank? ==> forall i: nat | Decides(s, request, rows, i) ::
          result == if !s.grants[rows[i]].intact then Failure("integrity")
                    else if OwnAction(s, request.subject, action) then Success(rows[i])
                    else Failure("denied"))
  }

  lemma ChosenIsAnswered(s: Store, request: Request, action: Option<nat>, rows: seq<GrantId>, choice: Choice)
    requires QueryResult(s, request, rows) && Chosen(s, request, rows, choice)
    ensures Answered(s, request, action, rows, ChargeOutcome(s, request, action, choice))
  {
  }

  class CapabilityStore {
    var store: Store

    constructor ()
      ensures store == Store(map[], [], map[])
    {
      store := Store(map[], [], map[]);
    }

    method Grant(id: GrantId, proposal: GrantRow, byOperator: bool, now: int) returns (granted: bool)
      requires id !in store.grants
      modifies this
      ensures granted <==>
                && byOperator && !proposal.requiresApproval
                && ValidScope(proposal.kind, proposal.scope, proposal.sideEffect)
      ensures granted ==>
                Steps(old(store), store,
                      Granted(id, proposal.(active := true, createdAt := now, revokedAt := None, intact := true)))
      ensures granted <==>
                && byOperator && !proposal.requiresApproval
                && (exists resource :: InScope(proposal.scope, resource) && Concerns(proposal.kind, resource))
                && (proposal.kind in {FilesystemWrite, Publish, Message, Wallet} ==> proposal.sideEffect)
      ensures !granted ==> store == old(store)
    {
      granted := false;
      ValidScopeIff(proposal.kind, proposal.scope, proposal.sideEffect);
      if byOperator && !proposal.requiresApproval && ValidScope(proposal.kind, proposal.scope, proposal.sideEffect) {
        var grant := proposal.(active := true, createdAt := now, revokedAt := None, intact := true);
        store := store.(grants := store.grants[id := grant]);
        granted := true;
      }
    }

    /** `revoke`: an operator's, with a reason.  Revoking again changes nothing, but a revoked row that no
        longer matches its state hash is an integrity error. */
    method Revoke(id: GrantId, subject: Subject, byOperator: bool, reasoned: bool, now: int)
      returns (result: Result<()>)
      modifies this
      ensures result.Success? <==>
                && byOperator && reasoned
                && id in old(store).grants && old(store).grants[id].subject == subject
                && (old(store).grants[id].active || old(store).grants[id].intact)
      ensures result.Success? ==> id in store.grants && !store.grants[id].active && store.grants[id].intact
      ensures if result.Success? && old(store).grants[id].active
              then Steps(old(store), store, Revoked(id, now)) else store == old(store)
    {
      if !byOperator || !reasoned {
        return Failure("only an operator can revoke a grant with a reason");
      }
      if id !in store.grants || store.grants[id].subject != subject {
        return Failure("capability grant not found");
      }
      if !store.grants[id].active {
        return if store.grants[id].intact then Success(()) else Failure("capability grant state hash mismatch");
      }
      var grant := store.grants[id].(active := false, revokedAt := Some(now), intact := true);
      store := store.(grants := store.grants[id := grant]);
      return Success(());
    }

    /** `use`: the selected grant is charged, and whatever is charged still passes `revalidate_use`. */
    method Use(request: Request, action: Option<nat>, rows: seq<GrantId>) returns (result: Result<GrantId>)
      requires QueryResult(store, request, rows)
      modifies this
      ensures result == ChargeOutcome(old(store), request, action, FirstOf(old(store), request, rows))
      ensures result.Success? ==>
                && Steps(old(store), store, Charged(result.value, request, action))
                && StillAuthorizes(store, result.value, request)
      ensures result.Failure? ==> store == old(store)
      ensures Answered(old(store), request, action, rows, result)
      ensures result.Success? ==>
                store == old(store).(uses := old(store).uses
                                             + [UseRow(result.value, request.now, request.resource, action)])
    {
      result := Answer(request, action, rows);
      if result.Success? {
        store := store.(uses := store.uses + [UseRow(result.value, request.now, request.resource, action)]);
      }
    }

    /** What `use` answers, before anything is charged. */
    method Answer(request: Request, action: Option<nat>, rows: seq<GrantId>) returns (result: Result<GrantId>)
      requires QueryResult(store, request, rows)
      ensures result == ChargeOutcome(store, request, action, FirstOf(store, request, rows))
      ensures Answered(store, request, action, rows, result)
      ensures result.Success? ==>
                result.value in store.grants && Authorizes(store, result.value, request)
                && store.grants[result.value].intact
    {
      if request.resource.Blank? {
        return Failure("blank");
      }
      var choice := Select(store, request, rows);
      result := ChargeOutcome(store, request, action, choice);
      ChosenIsAnswered(store, request, action, rows, choice);
      if result.Success? {
        AuthorizesIff(store, result.value, request);
      }
    }

    /** `allows` says what `use` without an action would do in the same state; None is the integrity
        error both raise. */
    method Allows(request: Request, rows: seq<GrantId>) returns (allowed: Option<bool>)
      requires QueryResult(store, request, rows)
      ensures allowed == Some(true) <==>
                ChargeOutcome(store, request, None, FirstOf(store, request, rows)).Success?
      ensures allowed == None <==>
                !request.resource.Blank? && FirstOf(store, request, rows) == Corrupt
      ensures allowed == Some(false) <==> request.resource.Blank? || Undecided(store, request, rows)
      ensures allowed == Some(false) && !request.resource.Blank? ==>
                forall id | id in store.grants :: !Permits(store, id, request)
      ensures allowed == Some(true) ==> exists id | id in store.grants :: Permits(store, id, request)
      ensures !request.resource.Blank? ==> forall i: nat | Decides(store, request, rows, i) ::
                allowed == if store.grants[rows[i]].intact then Some(true) else None
    {
      if request.resource.Blank? {
        return Some(false);
      }
      var choice := Select(store, request, rows);
      return if choice == Corrupt then None else Some(choice.Selected?);
    }
  }
}
