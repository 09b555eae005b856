/** Governed freedom: levels, budgets and the capability boundary. */
module Freedom {
  import opened Text

  datatype Level = F0 | F1 | F2 | F3 | F4 | F5

  function Rank(level: Level): nat {
    match level
    case F0 => 0
    case F1 => 1
    case F2 => 2
    case F3 => 3
    case F4 => 4
    case F5 => 5
  }

  predicate AtLeast(actual: Level, required: Level) { Rank(actual) >= Rank(required) }

  // ---- budgets ------------------------------------------------------------------------------------------------------

  datatype Budget = Budget(steps: nat, toolCalls: nat, networkCalls: nat, wallClock: nat, mutations: nat, writes: nat)

  function Min(a: nat, b: nat): nat { if b < a then b else a }

  function StepCeiling(level: Level): nat {
    match level
    case F0 => 4
    case F1 => 8
    case F2 => 16
    case F3 => 32
    case F4 => 64
    case F5 => 128
  }

  datatype Ceiling = Ceiling(key: string, value: nat)

  const NETWORK := "max_network_calls"
  const MUTATIONS := "max_database_mutations"
  const WRITES := "max_filesystem_writes"

  function Ceilings(level: Level): (c: seq<Ceiling>)
    ensures |c| == 3 && c[0].key == NETWORK && c[1].key == MUTATIONS && c[2].key == WRITES
  {
    var (n, m, w) := match level
      case F0 => (0, 0, 0)
      case F1 => (0, 0, 4)
      case F2 => (0, 2, 16)
      case F3 => (0, 8, 64)
      case F4 => (8, 16, 128)
      case F5 => (32, 64, 512);
    [Ceiling(NETWORK, n), Ceiling(MUTATIONS, m), Ceiling(WRITES, w)]
  }

  /** The largest budget of a level; it has no ceiling for tool calls and wall-clock time. */
  function Cap(b: Budget, level: Level): Budget {
    var c := Ceilings(level);
    Budget(StepCeiling(level), b.toolCalls, c[0].value, b.wallClock, c[1].value, c[2].value)
  }

  predicate Within(a: Budget, b: Budget) {
    a.steps <= b.steps && a.toolCalls <= b.toolCalls && a.networkCalls <= b.networkCalls
    && a.wallClock <= b.wallClock && a.mutations <= b.mutations && a.writes <= b.writes
  }

  function AtLevel(b: Budget, level: Level): Budget {
    var c := Ceilings(level);
    Budget(Min(b.steps, StepCeiling(level)), b.toolCalls, Min(b.networkCalls, c[0].value), b.wallClock,
      Min(b.mutations, c[1].value), Min(b.writes, c[2].value))
  }

  /** `with_level`: lowers the capped entries of the dumped budget one after the other. */
  method WithLevel(b: Budget, level: Level) returns (r: Budget)
    ensures r == AtLevel(b, level)
  {
    DistinctKeys();
    hide NETWORK, MUTATIONS, WRITES;
    var payload := map[NETWORK := b.networkCalls, MUTATIONS := b.mutations, WRITES := b.writes];
    var ceilings := Ceilings(level);
    for i := 0 to |ceilings|
      invariant forall j :: 0 <= j < |ceilings| ==> ceilings[j].key in payload
      invariant payload[NETWORK] == if i > 0 then Min(b.networkCalls, ceilings[0].value) else b.networkCalls
      invariant payload[MUTATIONS] == if i > 1 then Min(b.mutations, ceilings[1].value) else b.mutations
      invariant payload[WRITES] == if i > 2 then Min(b.writes, ceilings[2].value) else b.writes
    {
      var c := ceilings[i];
      payload := payload[c.key := Min(payload[c.key], c.value)];
    }
    r := Budget(Min(b.steps, StepCeiling(level)), b.toolCalls, payload[NETWORK], b.wallClock, payload[MUTATIONS],
      payload[WRITES]);
  }

  lemma DistinctKeys()
    ensures NETWORK != MUTATIONS && NETWORK != WRITES && MUTATIONS != WRITES
  {
    assert NETWORK[4] == 'n' && MUTATIONS[4] == 'd' && WRITES[4] == 'f';
  }

  /** The budget at a level is the largest one that loosens no cap of the given budget and stays within
      the ceilings of the level; it is valid if the given one is. */
  lemma AtLevelIsMeet(b: Budget, level: Level, other: Budget)
    ensures Within(other, AtLevel(b, level)) <==> Within(other, b) && Within(other, Cap(b, level))
    ensures b.steps >= 1 ==> AtLevel(b, level).steps >= 1
  {}

  lemma CeilingsGrow(b: Budget, low: Level, high: Level)
    requires AtLeast(high, low)
    ensures Within(Cap(b, low), Cap(b, high))
    ensures AtLevel(AtLevel(b, low), high) == AtLevel(b, low) == AtLevel(AtLevel(b, high), low)
  {}

  function Lower(a: Level, b: Level): Level { if AtLeast(b, a) then a else b }

  function Lowest(levels: seq<Level>): Level
    requires |levels| > 0
  {
    if |levels| == 1 then levels[0] else Lower(levels[0], Lowest(levels[1..]))
  }

  /** `with_level` applied for each level in turn. */
  function AtLevels(b: Budget, levels: seq<Level>): Budget
    decreases |levels|
  {
    if |levels| == 0 then b else AtLevels(AtLevel(b, levels[0]), levels[1..])
  }

  lemma LowerTwice(b: Budget, x: Level, y: Level)
    ensures AtLevel(AtLevel(b, x), y) == AtLevel(b, Lower(x, y))
  {
    if AtLeast(y, x) { CeilingsGrow(b, x, y); } else { CeilingsGrow(b, y, x); }
  }

  /** Applying `with_level` over any list of levels, in any order, is applying the lowest one. */
  lemma {:induction false} LevelsAreLowest(b: Budget, levels: seq<Level>)
    requires |levels| > 0
    ensures AtLevels(b, levels) == AtLevel(b, Lowest(levels))
    ensures Lowest(levels) in levels && forall l | l in levels :: AtLeast(l, Lowest(levels))
    decreases |levels|
  {
    hide AtLevel;
    var rest := levels[1..];
    if |levels| > 1 {
      LevelsAreLowest(AtLevel(b, levels[0]), rest);
      LowerTwice(b, levels[0], Lowest(rest));
      assert levels == [levels[0]] + rest;
    }
  }

  // ---- the boundary -------------------------------------------------------------------------------------------------

  datatype Policy = Policy(
    level: Level, humanApproval: seq<string>, allowNetwork: bool, allowPrivilege: bool, allowMutation: bool,
    allowTagChanges: bool, maxWriteBytes: nat, roots: seq<string>, databasePaths: seq<string>, hosts: seq<string>,
    terminalAllowlist: seq<string>)

  /** The policy, the four pattern lists as predicates on commands, and the resolution of paths to their
      components. */
  datatype Boundary = Boundary(
    policy: Policy, tag: string -> bool, privilege: string -> bool, mutation: string -> bool, network: string -> bool,
    resolve: string -> seq<string>)

  datatype Action =
    | Terminal | FileWrite | FileRead | NetworkRequest | DatabaseMutation | ReleaseTag | GitTag | OtherAction

  datatype Context = Context(
    action: Action, level: Level, path: Option<string>, command: Option<string>, bytes: int, host: Option<string>,
    databasePath: Option<string>)

  datatype Reason =
    | Ok | EmptyCommand | LevelTooLow | NetworkDenied | MutationDenied | TagDenied | PathNotAllowed | PrivilegeDenied
    | WriteTooLarge | HostNotAllowed | DatabaseNotAllowed

  datatype Decision = Decision(allowed: bool, reason: Reason, humanApproval: bool)

  function Deny(reason: Reason): Decision { Decision(false, reason, false) }

  const ALLOWED := Decision(true, Ok, false)

  predicate PathAllowed(b: Boundary, path: string) {
    b.policy.roots == [] || exists root | root in b.policy.roots :: b.resolve(root) <= b.resolve(path)
  }

  predicate HostMatches(pattern: string, host: string) {
    pattern == host
    || (StartsWith(pattern, "*.") && |host| >= |pattern| - 1 && host[|host| - (|pattern| - 1)..] == pattern[1..])
  }

  predicate HostAllowed(b: Boundary, host: string) { exists p | p in b.policy.hosts :: HostMatches(p, host) }

  /** The host check is only made for a host that is named and a list that is not empty. */
  predicate HostPasses(b: Boundary, host: Option<string>) {
    b.policy.hosts == [] || host.None? || host.value == "" || HostAllowed(b, host.value)
  }

  function TagDecision(b: Boundary, c: Context): Decision {
    if "release_tag" in b.policy.humanApproval && !b.policy.allowTagChanges then Decision(false, TagDenied, true)
    else if !AtLeast(c.level, F3) then Deny(LevelTooLow)
    else ALLOWED
  }

  function TerminalDecision(b: Boundary, c: Context): Decision {
    var cmd := if c.command.Some? then Strip(c.command.value) else "";
    var p := b.policy;
    if cmd == "" then Deny(EmptyCommand)
    else if b.tag(cmd) then TagDecision(b, c)
    else if b.privilege(cmd) && !p.allowPrivilege then Deny(PrivilegeDenied)
    else if b.mutation(cmd) && !p.allowMutation then Deny(MutationDenied)
    else if b.network(cmd) && (!p.allowNetwork || p.level == F0) then Deny(NetworkDenied)
    else if b.network(cmd) && !HostPasses(b, c.host) then Deny(HostNotAllowed)
    else if c.level == F0 && !p.allowPrivilege && cmd !in p.terminalAllowlist then Deny(LevelTooLow)
    else ALLOWED
  }

  function Check(b: Boundary, c: Context): Decision {
    var p := b.policy;
    match c.action
    case Terminal => TerminalDecision(b, c)
    case FileWrite =>
      if c.level == F0 && !p.allowPrivilege then Deny(LevelTooLow)
      else if c.bytes > p.maxWriteBytes then Deny(WriteTooLarge)
      else if c.path.Some? && !PathAllowed(b, c.path.value) then Deny(PathNotAllowed)
      else ALLOWED
    case FileRead => if c.path.Some? && !PathAllowed(b, c.path.value) then Deny(PathNotAllowed) else ALLOWED
    case NetworkRequest =>
      if !p.allowNetwork || c.level == F0 then Deny(NetworkDenied)
      else if !HostPasses(b, c.host) then Deny(HostNotAllowed)
      else ALLOWED
    case DatabaseMutation =>
      if !p.allowMutation then Deny(MutationDenied)
      else if p.databasePaths != [] && c.databasePath.Some? && c.databasePath.value !in p.databasePaths then
        Deny(DatabaseNotAllowed)
      else Decision(true, Ok, "database_mutation" in p.humanApproval)
    case ReleaseTag => TagDecision(b, c)
    case GitTag => TagDecision(b, c)
    case OtherAction => ALLOWED
  }

  /** An allowlist that allows at least as much: an empty list of roots, hosts or databases allows all. */
  predicate Wider(wide: seq<string>, narrow: seq<string>) {
    wide == [] || (narrow != [] && forall x | x in narrow :: x in wide)
  }

  /** More authority: a higher level, more flags, a larger write cap, fewer actions kept for humans, wider
      allowlists. */
  predicate MoreAuthority(p: Policy, q: Policy) {
    && AtLeast(q.level, p.level)
    && (forall a | a in q.humanApproval :: a in p.humanApproval)
    && (p.allowNetwork ==> q.allowNetwork) && (p.allowPrivilege ==> q.allowPrivilege)
    && (p.allowMutation ==> q.allowMutation) && (p.allowTagChanges ==> q.allowTagChanges)
    && p.maxWriteBytes <= q.maxWriteBytes
    && Wider(q.roots, p.roots) && Wider(q.hosts, p.hosts) && Wider(q.databasePaths, p.databasePaths)
    && forall x | x in p.terminalAllowlist :: x in q.terminalAllowlist
  }

  lemma TagMonotone(b: Boundary, q: Policy, c: Context, level: Level)
    requires MoreAuthority(b.policy, q) && AtLeast(level, c.level)
    requires TagDecision(b, c).allowed
    ensures TagDecision(b.(policy := q), c.(level := level)).allowed
  {
    hide Wider;
  }

  lemma HostMonotone(b: Boundary, q: Policy, host: Option<string>)
    requires MoreAuthority(b.policy, q) && HostPasses(b, host)
    ensures HostPasses(b.(policy := q), host)
  {
    hide HostMatches;
  }

  lemma PathMonotone(b: Boundary, q: Policy, path: string)
    requires MoreAuthority(b.policy, q) && PathAllowed(b, path)
    ensures PathAllowed(b.(policy := q), path)
  {}

  lemma TerminalMonotone(b: Boundary, q: Policy, c: Context, level: Level)
    requires MoreAuthority(b.policy, q) && AtLeast(level, c.level)
    requires TerminalDecision(b, c).allowed
    ensures TerminalDecision(b.(policy := q), c.(level := level)).allowed
  {
    hide TagDecision, HostPasses, Wider, Strip;
    if HostPasses(b, c.host) { HostMonotone(b, q, c.host); }
    if TagDecision(b, c).allowed { TagMonotone(b, q, c, level); }
  }

  lemma AllowedNeedsNobody(b: Boundary, c: Context)
    ensures TerminalDecision(b, c).allowed ==> !TerminalDecision(b, c).humanApproval
    ensures TagDecision(b, c).allowed ==> !TagDecision(b, c).humanApproval
  {
    hide Strip, HostPasses;
  }

  /** Authority is jointly monotone: giving the context a higher level and the policy more authority, in
      any combination, never turns an allowed request into a denied one. */
  lemma AuthorityIsMonotone(b: Boundary, q: Policy, c: Context, level: Level)
    requires MoreAuthority(b.policy, q) && AtLeast(level, c.level)
    requires Check(b, c).allowed
    ensures var d := Check(b.(policy := q), c.(level := level));
      d.allowed && (d.humanApproval ==> Check(b, c).humanApproval)
  {
    AllowedNeedsNobody(b.(policy := q), c.(level := level));
    hide TerminalDecision, TagDecision, HostPasses, PathAllowed;
    if c.action == Terminal { TerminalMonotone(b, q, c, level); }
    if TagDecision(b, c).allowed { TagMonotone(b, q, c, level); }
    if HostPasses(b, c.host) { HostMonotone(b, q, c.host); }
    if c.path.Some? && PathAllowed(b, c.path.value) { PathMonotone(b, q, c.path.value); }
  }

  /** Adding entries to an allowlist is more authority only if the list was not empty: the first root
      given to a policy without roots denies every path outside of it. */
  lemma FirstRootRestricts(b: Boundary, c: Context, root: string)
    requires c.action == FileRead && c.path.Some? && b.policy.roots == []
    ensures Check(b, c).allowed
    ensures Check(b.(policy := b.policy.(roots := [root])), c).allowed <==> b.resolve(root) <= b.resolve(c.path.value)
  {}

  /** With all authority granted only an empty command is denied. */
  lemma FullAuthorityAllows(b: Boundary, c: Context)
    requires c.level == F5 && b.policy.level == F5 && b.policy.humanApproval == []
    requires b.policy.allowNetwork && b.policy.allowPrivilege && b.policy.allowMutation
    requires b.policy.roots == [] && b.policy.hosts == [] && b.policy.databasePaths == []
    requires c.bytes <= b.policy.maxWriteBytes
    ensures Check(b, c).allowed <==> c.action != Terminal || (c.command.Some? && Strip(c.command.value) != "")
  {
    hide Strip;
  }

  // ---- what each level and flag decides -----------------------------------------------------------------------------

  lemma LevelsInOrder()
    ensures AtLeast(F5, F4) && !AtLeast(F4, F5) && AtLeast(F4, F3) && !AtLeast(F3, F4)
    ensures AtLeast(F3, F2) && !AtLeast(F2, F3) && AtLeast(F2, F1) && !AtLeast(F1, F2)
    ensures AtLeast(F1, F0) && !AtLeast(F0, F1)
    ensures forall a, b, c :: AtLeast(a, b) && AtLeast(b, c) ==> AtLeast(a, c)
    ensures forall a, b :: AtLeast(a, b) || AtLeast(b, a)
  {}

  /** The ceilings of the levels: steps, network calls, database mutations, filesystem writes. */
  lemma CeilingsExactly(b: Budget)
    ensures Cap(b, F0) == Budget(4, b.toolCalls, 0, b.wallClock, 0, 0)
    ensures Cap(b, F1) == Budget(8, b.toolCalls, 0, b.wallClock, 0, 4)
    ensures Cap(b, F2) == Budget(16, b.toolCalls, 0, b.wallClock, 2, 16)
    ensures Cap(b, F3) == Budget(32, b.toolCalls, 0, b.wallClock, 8, 64)
    ensures Cap(b, F4) == Budget(64, b.toolCalls, 8, b.wallClock, 16, 128)
    ensures Cap(b, F5) == Budget(128, b.toolCalls, 32, b.wallClock, 64, 512)
  {}

  /** The path is below one of the roots, or there are none. */
  predicate UnderRoots(b: Boundary, path: Option<string>) {
    || path.None? || b.policy.roots == []
    || exists root | root in b.policy.roots :: b.resolve(root) <= b.resolve(path.value)
  }

  /** The host is listed, by name or behind a listed wildcard, or there is nothing to compare. */
  predicate HostListed(b: Boundary, host: Option<string>) {
    || b.policy.hosts == [] || host.None? || host.value == ""
    || host.value in b.policy.hosts
    || exists p | p in b.policy.hosts :: "*." <= p && EndsWith(host.value, p[1..])
  }

  predicate EndsWith(s: string, tail: string) { |tail| <= |s| && s[|s| - |tail|..] == tail }

  /** Why a tag is refused, if it is. */
  function TagReason(b: Boundary, c: Context): Reason {
    if "release_tag" in b.policy.humanApproval && !b.policy.allowTagChanges then TagDenied
    else if c.level == F0 || c.level == F1 || c.level == F2 then LevelTooLow
    else Ok
  }

  /** Why a command is refused, if it is: the first of the grounds in this order. */
  function CommandReason(b: Boundary, c: Context, cmd: string): Reason {
    var p := b.policy;
    if cmd == "" then EmptyCommand
    else if b.tag(cmd) then TagReason(b, c)
    else if b.privilege(cmd) && !p.allowPrivilege then PrivilegeDenied
    else if b.mutation(cmd) && !p.allowMutation then MutationDenied
    else if b.network(cmd) && !(p.allowNetwork && p.level != F0) then NetworkDenied
    else if b.network(cmd) && !HostListed(b, c.host) then HostNotAllowed
    else if c.level == F0 && !(p.allowPrivilege || cmd in p.terminalAllowlist) then LevelTooLow
    else Ok
  }

  /** Why a request is refused, if it is. */
  function ReasonFor(b: Boundary, c: Context): Reason {
    var p := b.policy;
    match c.action
    case Terminal => CommandReason(b, c, if c.command.None? then "" else Strip(c.command.value))
    case FileWrite =>
      if c.level == F0 && !p.allowPrivilege then LevelTooLow
      else if p.maxWriteBytes < c.bytes then WriteTooLarge
      else if !UnderRoots(b, c.path) then PathNotAllowed
      else Ok
    case FileRead => if UnderRoots(b, c.path) then Ok else PathNotAllowed
    case NetworkRequest =>
      if c.level == F0 || !p.allowNetwork then NetworkDenied else if HostListed(b, c.host) then Ok else HostNotAllowed
    case DatabaseMutation =>
      if !p.allowMutation then MutationDenied
      else if c.databasePath.Some? && p.databasePaths != [] && c.databasePath.value !in p.databasePaths then
        DatabaseNotAllowed
      else Ok
    case ReleaseTag => TagReason(b, c)
    case GitTag => TagReason(b, c)
    case OtherAction => Ok
  }

  lemma HostListedExactly(b: Boundary, host: Option<string>)
    ensures HostPasses(b, host) <==> HostListed(b, host)
  {
    if host.Some? {
      forall p ensures HostMatches(p, host.value) <==> p == host.value || ("*." <= p && EndsWith(host.value, p[1..])) {}
    }
  }

  /** The decision is the refusal for the given ground, or none; a human is asked for a tag that is kept for
      humans, and where an allowed request needs one. */
  predicate Decides(d: Decision, reason: Reason, asks: bool) {
    && d.reason == reason && (d.allowed <==> reason == Ok)
    && (d.humanApproval <==> reason == TagDenied || (reason == Ok && asks))
  }

  /** A request is allowed exactly if no flag, level, size or list stands against it, and is otherwise refused for
      the first ground that does; a human is asked for an allowed database mutation on the approval list and for
      a tag that the list keeps for humans. */
  lemma CheckExactly(b: Boundary, c: Context)
    ensures Decides(Check(b, c), ReasonFor(b, c),
                    c.action == DatabaseMutation && "database_mutation" in b.policy.humanApproval)
  {
    match c.action
    case Terminal => CommandExactly(b, c);
    case FileWrite => FileExactly(b, c);
    case FileRead => FileExactly(b, c);
    case NetworkRequest => NetworkExactly(b, c);
    case DatabaseMutation => DatabaseExactly(b, c);
    case ReleaseTag => TagExactly(b, c);
    case GitTag => TagExactly(b, c);
    case OtherAction =>
  }

  lemma FileExactly(b: Boundary, c: Context)
    requires c.action == FileWrite || c.action == FileRead
    ensures Decides(Check(b, c), ReasonFor(b, c), false)
  {
    if c.path.Some? { UnderRootsExactly(b, c.path.value); }
    NoRootsNeeded(b, c.path);
    hide PathAllowed, UnderRoots;
  }

  lemma NetworkExactly(b: Boundary, c: Context)
    requires c.action == NetworkRequest
    ensures Decides(Check(b, c), ReasonFor(b, c), false)
  {
    HostListedExactly(b, c.host);
    hide HostPasses, HostListed;
  }

  lemma DatabaseExactly(b: Boundary, c: Context)
    requires c.action == DatabaseMutation
    ensures Decides(Check(b, c), ReasonFor(b, c), "database_mutation" in b.policy.humanApproval)
  {}

  lemma NoRootsNeeded(b: Boundary, path: Option<string>)
    ensures path.None? ==> UnderRoots(b, path)
  {}

  lemma UnderRootsExactly(b: Boundary, path: string)
    ensures PathAllowed(b, path) <==> UnderRoots(b, Some(path))
  {}

  lemma TagExactly(b: Boundary, c: Context)
    ensures Decides(TagDecision(b, c), TagReason(b, c), false)
  {}

  lemma CommandExactly(b: Boundary, c: Context)
    ensures var cmd := if c.command.None? then "" else Strip(c.command.value);
      Decides(TerminalDecision(b, c), CommandReason(b, c, cmd), false)
  {
    TagExactly(b, c);
    HostListedExactly(b, c.host);
    hide TagDecision, TagReason, HostPasses, HostListed, Strip;
  }
}
