/** The registry of method names and command IDs (protocol/mapper.go). */
module Registry {
  import opened Bytes
  import opened Wrappers

  // ----- names -----

  /** White space as the source's string trimming understands it (Unicode). */
  predicate IsSpace(c: char) {
    var u := c as int;
    0x09 <= u <= 0x0D || u == 0x20 || u == 0x85 || u == 0xA0 || u == 0x1680 || 0x2000 <= u <= 0x200A
    || u == 0x2028 || u == 0x2029 || u == 0x202F || u == 0x205F || u == 0x3000
  }

  function TrimLeft(s: string): string {
    if s != "" && IsSpace(s[0]) then TrimLeft(s[1..]) else s
  }

  function TrimRight(s: string): string {
    if s != "" && IsSpace(s[|s| - 1]) then TrimRight(s[..|s| - 1]) else s
  }

  function TrimSpace(s: string): string {
    TrimRight(TrimLeft(s))
  }

  /** Neither end is a blank. */
  predicate Tight(s: string) {
    s != "" ==> !IsSpace(s[0]) && !IsSpace(s[|s| - 1])
  }

  /** Index of the last '.', -1 if there is none. */
  function LastDot(s: string): (idx: int)
    ensures -1 <= idx < |s|
    ensures idx >= 0 ==> s[idx] == '.'
    ensures forall i :: idx < i < |s| ==> s[i] != '.'
    decreases |s|
  {
    if s == "" then -1 else if s[|s| - 1] == '.' then |s| - 1 else LastDot(s[..|s| - 1])
  }

  datatype Name = Name(service: string, rpc: string)

  function SplitFullMethod(fullMethod: string): (name: Option<Name>)
    ensures name.Some? ==> |fullMethod| > 2
  {
    var idx := LastDot(fullMethod);
    if idx <= 0 || idx >= |fullMethod| - 1 then None
    else
      var service, rpc := TrimSpace(fullMethod[..idx]), TrimSpace(fullMethod[idx + 1..]);
      if service == "" || rpc == "" then None else Some(Name(service, rpc))
  }

  function Join(n: Name): string {
    n.service + "." + n.rpc
  }

  /** The key a lookup of `fullMethod` uses. */
  function LookupKey(fullMethod: string): Option<string> {
    match SplitFullMethod(TrimSpace(fullMethod))
    case None => None
    case Some(n) => Some(Join(n))
  }

  lemma {:induction false} TrimLeftTight(s: string)
    ensures var t := TrimLeft(s);
            (t != "" ==> !IsSpace(t[0])) && |t| <= |s| && t == s[|s| - |t|..]
    decreases |s|
  {
    if s != "" && IsSpace(s[0]) {
      TrimLeftTight(s[1..]);
    }
  }

  lemma {:induction false} TrimRightTight(s: string)
    ensures var t := TrimRight(s);
            (t != "" ==> !IsSpace(t[|t| - 1])) && t <= s
    decreases |s|
  {
    if s != "" && IsSpace(s[|s| - 1]) {
      TrimRightTight(s[..|s| - 1]);
    }
  }

  /** Trimming gives a part of the string without blanks at its ends, and leaves such a string alone. */
  lemma TrimSpaceTight(s: string)
    ensures Tight(TrimSpace(s))
    ensures forall c :: c in TrimSpace(s) ==> c in s
    ensures Tight(s) ==> TrimSpace(s) == s
  {
    TrimLeftTight(s);
    TrimRightTight(TrimLeft(s));
  }

  /** Trimming takes off the blanks at both ends and nothing else. */
  lemma TrimExactly(s: string) returns (i: nat, j: nat)
    ensures i <= j <= |s| && TrimSpace(s) == s[i..j] && Tight(TrimSpace(s))
    ensures forall k :: 0 <= k < i || j <= k < |s| ==> IsSpace(s[k])
  {
    i := TrimLeftExactly(s);
    j := TrimRightExactly(TrimLeft(s));
    assert forall k :: j <= k < |s| - i ==> s[i + k] == TrimLeft(s)[k];
    j := i + j;
    assert forall k :: j <= k < |s| ==> s[k] == TrimLeft(s)[k - i];
    TrimSpaceTight(s);
  }

  lemma {:induction false} TrimLeftExactly(s: string) returns (i: nat)
    ensures i <= |s| && TrimLeft(s) == s[i..] && forall k :: 0 <= k < i ==> IsSpace(s[k])
    decreases |s|
  {
    if s != "" && IsSpace(s[0]) {
      i := TrimLeftExactly(s[1..]);
      assert forall k :: 0 < k <= i ==> s[k] == s[1..][k - 1];
      i := i + 1;
    } else {
      i := 0;
    }
  }

  lemma {:induction false} TrimRightExactly(s: string) returns (j: nat)
    ensures j <= |s| && TrimRight(s) == s[..j] && forall k :: j <= k < |s| ==> IsSpace(s[k])
    decreases |s|
  {
    if s != "" && IsSpace(s[|s| - 1]) {
      j := TrimRightExactly(s[..|s| - 1]);
    } else {
      j := |s|;
    }
  }

  lemma LastDotIs(s: string, i: nat)
    requires i < |s| && s[i] == '.' && forall j :: i < j < |s| ==> s[j] != '.'
    ensures LastDot(s) == i
  {
  }

  lemma LastDotOfJoin(n: Name)
    requires '.' !in n.rpc
    ensures LastDot(Join(n)) == |n.service|
  {
    var s, k := Join(n), |n.service|;
    assert forall j :: k < j < |s| ==> s[j] == n.rpc[j - k - 1];
    LastDotIs(s, k);
  }

  /** Trimmed parts joined by a dot split into the same parts. */
  lemma SplitJoin(n: Name)
    requires n.service != "" && n.rpc != "" && Tight(n.service) && Tight(n.rpc) && '.' !in n.rpc
    ensures Tight(Join(n)) && SplitFullMethod(Join(n)) == Some(n)
  {
    var s, k := Join(n), |n.service|;
    assert s[0] == n.service[0] && s[|s| - 1] == n.rpc[|n.rpc| - 1];
    LastDotOfJoin(n);
    assert s[..k] == n.service && s[k + 1..] == n.rpc;
    TrimSpaceTight(n.service);
    TrimSpaceTight(n.rpc);
  }

  lemma SplitTight(s: string)
    requires SplitFullMethod(s).Some?
    ensures var n := SplitFullMethod(s).value;
            n.service != "" && n.rpc != "" && Tight(n.service) && Tight(n.rpc) && '.' !in n.rpc
  {
    var idx := LastDot(s);
    TrimSpaceTight(s[..idx]);
    TrimSpaceTight(s[idx + 1..]);
    assert '.' !in s[idx + 1..];
  }

  /** Two parts around the last dot of the name, which are not blank, give its service and method. */
  ghost predicate PartsOf(s: string, before: string, after: string) {
    s == before + "." + after && '.' !in after && TrimSpace(before) != "" && TrimSpace(after) != ""
  }

  /** A name is well-formed exactly if such parts exist, and is split into them, trimmed. */
  lemma SplitExactly(s: string)
    ensures SplitFullMethod(s).None? <==> !exists before, after :: PartsOf(s, before, after)
    ensures forall before, after :: PartsOf(s, before, after) ==>
              SplitFullMethod(s) == Some(Name(TrimSpace(before), TrimSpace(after)))
  {
    var i := LastDot(s);
    if SplitFullMethod(s).Some? {
      assert s == s[..i] + "." + s[i + 1..] && '.' !in s[i + 1..];
      assert PartsOf(s, s[..i], s[i + 1..]);
    }
    forall before, after | PartsOf(s, before, after)
      ensures SplitFullMethod(s) == Some(Name(TrimSpace(before), TrimSpace(after)))
    {
      PartsSplit(s, before, after);
    }
  }

  lemma PartsSplit(s: string, before: string, after: string)
    requires PartsOf(s, before, after)
    ensures SplitFullMethod(s) == Some(Name(TrimSpace(before), TrimSpace(after)))
  {
    LastDotOfJoin(Name(before, after));
    assert s[..|before|] == before && s[|before| + 1..] == after;
    assert before != "" && after != "" by {
      TrimSpaceTight("");
    }
  }

  /** Lookup keys are normal: looking one up again, or registering it, uses the same key. */
  lemma LookupKeyNormal(fullMethod: string)
    requires LookupKey(fullMethod).Some?
    ensures var key := LookupKey(fullMethod).value;
            TrimSpace(key) == key && LookupKey(key) == Some(key)
  {
    var n := SplitFullMethod(TrimSpace(fullMethod)).value;
    SplitTight(TrimSpace(fullMethod));
    SplitJoin(n);
    TrimSpaceTight(Join(n));
  }

  /** The last dot stands between two parts, and neither neighbour of it is a blank. */
  predicate NoBlankAtDot(s: string) {
    var i := LastDot(s);
    0 < i < |s| - 1 && !IsSpace(s[i - 1]) && !IsSpace(s[i + 1])
  }

  lemma OwnKeyIf(s: string)
    requires Tight(s) && NoBlankAtDot(s)
    ensures SplitFullMethod(s).Some? && Join(SplitFullMethod(s).value) == s
  {
    var i := LastDot(s);
    TrimSpaceTight(s[..i]);
    TrimSpaceTight(s[i + 1..]);
  }

  lemma OwnKeyOnlyIf(s: string)
    requires SplitFullMethod(s).Some? && Join(SplitFullMethod(s).value) == s
    ensures NoBlankAtDot(s)
  {
    var n := SplitFullMethod(s).value;
    SplitTight(s);
    LastDotOfJoin(n);
    var i := |n.service|;
    assert s[i - 1] == n.service[i - 1] && s[i + 1] == n.rpc[0];
  }

  /** A name is looked up under its own trimmed spelling exactly when no blank is next to its last dot. */
  lemma OwnKey(fullMethod: string)
    ensures LookupKey(fullMethod) == Some(TrimSpace(fullMethod)) <==> NoBlankAtDot(TrimSpace(fullMethod))
  {
    var s := TrimSpace(fullMethod);
    TrimSpaceTight(fullMethod);
    if NoBlankAtDot(s) {
      OwnKeyIf(s);
    } else if LookupKey(fullMethod) == Some(s) {
      OwnKeyOnlyIf(s);
    }
  }

  // ----- the two tables -----

  /** `locked`: a registration panicked while it held the write lock, which nothing releases. */
  datatype Tables =
    Tables(methodCommand: map<string, uint16>, commandMethod: map<uint16, string>, strict: bool, locked: bool)

  const EMPTY := Tables(map[], map[], false, false)

  /** Outcome of a registration: `Bound`, a panic, or `Blocked`, which waits for the lock forever. */
  datatype Registration = Bound | EmptyName | InvalidName | Conflict(existing: string) | Blocked

  /** Why a lookup gives no command; one that is `Awaiting` the lock never returns. */
  datatype MapError = InvalidFormat | Unregistered(key: string) | Awaiting

  function Register(t: Tables, fullMethod: string, cmd: uint16): (Tables, Registration) {
    var key := TrimSpace(fullMethod);
    if key == "" then (t, EmptyName)
    else if SplitFullMethod(key).None? then (t, InvalidName)
    else if t.locked then (t, Blocked)
    else if cmd in t.commandMethod && t.commandMethod[cmd] != key then
      (t.(locked := true), Conflict(t.commandMethod[cmd]))
    else
      (t.(methodCommand := t.methodCommand[key := cmd], commandMethod := t.commandMethod[cmd := key]), Bound)
  }

  /** `hash` stands for the FNV-1a value of service, a zero byte and method. */
  function Lookup(t: Tables, hash: Name -> uint16, fullMethod: string): Result<uint16, MapError> {
    match SplitFullMethod(TrimSpace(fullMethod))
    case None => Err(InvalidFormat)
    case Some(n) =>
      if t.locked then Err(Awaiting)
      else if Join(n) in t.methodCommand then Ok(t.methodCommand[Join(n)])
      else if t.strict then Err(Unregistered(Join(n)))
      else Ok(hash(n))
  }

  class Mapper {
    var methodCommand: map<string, uint16>
    var commandMethod: map<uint16, string>
    var strictMapping: bool
    var locked: bool
    const hash: Name -> uint16

    constructor (hash: Name -> uint16)
      ensures Contents() == EMPTY && this.hash == hash
    {
      methodCommand, commandMethod, strictMapping, locked, this.hash := map[], map[], false, false, hash;
    }

    ghost function Contents(): Tables
      reads this
    {
      Tables(methodCommand, commandMethod, strictMapping, locked)
    }

    /** Without effect once the lock is held for good: the call never returns. */
    method SetStrictCommandMapping(strict: bool)
      modifies this
      ensures Contents() == Step(old(Contents()), StrictCall(strict))
    {
      if !locked {
        strictMapping := strict;
      }
    }

    method RegisterFullMethodCommand(fullMethod: string, cmd: uint16) returns (r: Registration)
      modifies this
      ensures (Contents(), r) == Register(old(Contents()), fullMethod, cmd)
    {
      var key := TrimSpace(fullMethod);
      if key == "" {
        return EmptyName;
      }
      var name := SplitFullMethod(key);
      if name.None? {
        return InvalidName;
      }
      if locked {
        return Blocked;
      }
      if cmd in commandMethod && commandMethod[cmd] != key {
        locked := true;
        return Conflict(commandMethod[cmd]);
      }
      methodCommand := methodCommand[key := cmd];
      commandMethod := commandMethod[cmd := key];
      return Bound;
    }

    method MapMethodToCommand(fullMethod: string) returns (r: Result<uint16, MapError>)
      ensures r == Lookup(Contents(), hash, fullMethod)
    {
      var name := SplitFullMethod(TrimSpace(fullMethod));
      if name.None? {
        return Err(InvalidFormat);
      }
      if locked {
        return Err(Awaiting);
      }
      var normalized := Join(name.value);
      if normalized in methodCommand {
        return Ok(methodCommand[normalized]);
      }
      if strictMapping {
        return Err(Unregistered(normalized));
      }
      return Ok(hash(name.value));
    }
  }

  // ----- runs -----

  datatype Call = RegisterCall(fullMethod: string, cmd: uint16) | StrictCall(strict: bool)

  function Step(t: Tables, c: Call): Tables {
    match c
    case RegisterCall(fullMethod, cmd) => Register(t, fullMethod, cmd).0
    case StrictCall(strict) => if t.locked then t else t.(strict := strict)
  }

  function Run(t: Tables, calls: seq<Call>): Tables
    decreases |calls|
  {
    if calls == [] then t else Run(Step(t, calls[0]), calls[1..])
  }

  /** Trimmed, with a service and a method part. */
  ghost predicate Proper(name: string) {
    Tight(name) && SplitFullMethod(name).Some?
  }

  /**
   The two tables agree: every method's command is bound to that method, and every bound method
   is known; all names are trimmed and have both parts.
   */
  ghost predicate Consistent(t: Tables) {
    && (forall m :: m in t.methodCommand ==>
          t.methodCommand[m] in t.commandMethod && t.commandMethod[t.methodCommand[m]] == m)
    && (forall c :: c in t.commandMethod ==> t.commandMethod[c] in t.methodCommand)
    && (forall m :: m in t.methodCommand ==> Proper(m))
  }

  /** Every command bound before is bound to the same method after. */
  ghost predicate KeepsBindings(before: Tables, after: Tables) {
    forall c :: c in before.commandMethod ==>
      c in after.commandMethod && after.commandMethod[c] == before.commandMethod[c]
  }

  lemma StepConsistent(t: Tables, c: Call)
    requires Consistent(t)
    ensures Consistent(Step(t, c)) && KeepsBindings(t, Step(t, c))
  {
    if c.RegisterCall? && Register(t, c.fullMethod, c.cmd).1 == Bound {
      TrimSpaceTight(c.fullMethod);
      BindConsistent(t, TrimSpace(c.fullMethod), c.cmd);
    }
  }

  lemma BindConsistent(t: Tables, key: string, cmd: uint16)
    requires Consistent(t) && Proper(key) && (cmd in t.commandMethod ==> t.commandMethod[cmd] == key)
    ensures var t' := t.(methodCommand := t.methodCommand[key := cmd], commandMethod := t.commandMethod[cmd := key]);
            Consistent(t') && KeepsBindings(t, t')
  {
  }

  /** Over every run, the tables stay consistent (so no two methods share a command) and no binding changes. */
  lemma {:induction false} RunConsistent(t: Tables, calls: seq<Call>)
    requires Consistent(t)
    ensures Consistent(Run(t, calls)) && KeepsBindings(t, Run(t, calls))
    decreases |calls|
  {
    if calls != [] {
      StepConsistent(t, calls[0]);
      RunConsistent(Step(t, calls[0]), calls[1..]);
    }
  }

  lemma MethodsInjective(t: Tables, m: string, n: string)
    requires Consistent(t) && m in t.methodCommand && n in t.methodCommand
    requires t.methodCommand[m] == t.methodCommand[n]
    ensures m == n
  {
  }

  /** No call of the run binds the name `key`. */
  predicate LeavesName(calls: seq<Call>, key: string) {
    forall i :: 0 <= i < |calls| && calls[i].RegisterCall? ==> TrimSpace(calls[i].fullMethod) != key
  }

  lemma {:induction false} BindingPersists(t: Tables, calls: seq<Call>, key: string)
    requires LeavesName(calls, key) && key in t.methodCommand
    ensures key in Run(t, calls).methodCommand && Run(t, calls).methodCommand[key] == t.methodCommand[key]
    decreases |calls|
  {
    if calls != [] {
      assert forall i :: 0 <= i < |calls| - 1 ==> calls[1..][i] == calls[i + 1];
      assert calls[0].RegisterCall? ==> TrimSpace(calls[0].fullMethod) != key;
      BindingPersists(Step(t, calls[0]), calls[1..], key);
    }
  }

  // ----- the lock that a conflict leaves held -----

  /** A registration that passes the checks made before the lock is taken. */
  predicate WellFormed(c: Call) {
    c.RegisterCall? && SplitFullMethod(TrimSpace(c.fullMethod)).Some?
  }

  /** Two registrations give one command to two names. */
  predicate Clash(c: Call, d: Call) {
    WellFormed(c) && WellFormed(d) && c.cmd == d.cmd && TrimSpace(c.fullMethod) != TrimSpace(d.fullMethod)
  }

  predicate ClashesWith(t: Tables, c: Call) {
    && WellFormed(c) && c.cmd in t.commandMethod
    && t.commandMethod[c.cmd] != TrimSpace(c.fullMethod)
  }

  /** Some registration of `calls` clashes with the tables or with an earlier one of `calls`. */
  ghost predicate Conflicting(t: Tables, calls: seq<Call>) {
    || (exists j :: 0 <= j < |calls| && ClashesWith(t, calls[j]))
    || (exists i, j :: 0 <= i < j < |calls| && Clash(calls[i], calls[j]))
  }

  lemma {:induction false} LockedStays(t: Tables, calls: seq<Call>)
    requires t.locked
    ensures Run(t, calls) == t
    decreases |calls|
  {
    if calls != [] {
      LockedStays(t, calls[1..]);
    }
  }

  /** Calls clash after a call that returned exactly when they clash before it, or with it. */
  lemma ConflictingStep(t: Tables, calls: seq<Call>)
    requires calls != [] && !ClashesWith(t, calls[0]) && !t.locked
    ensures Conflicting(t, calls) <==> Conflicting(Step(t, calls[0]), calls[1..])
  {
    var c, rest, t' := calls[0], calls[1..], Step(t, calls[0]);
    assert forall d :: ClashesWith(t', d) <==> ClashesWith(t, d) || Clash(c, d);
    assert forall j :: 0 < j < |calls| ==> calls[j] == rest[j - 1];
    assert forall j :: 0 <= j < |rest| ==> rest[j] == calls[j + 1];
    if i, j :| 0 <= i < j < |calls| && Clash(calls[i], calls[j]) {
      if i == 0 {
        assert ClashesWith(t', rest[j - 1]);
      } else {
        assert Clash(rest[i - 1], rest[j - 1]);
      }
    }
    if j :| 0 <= j < |calls| && ClashesWith(t, calls[j]) {
      assert ClashesWith(t', rest[j - 1]);
    }
    if i, j :| 0 <= i < j < |rest| && Clash(rest[i], rest[j]) {
      assert Clash(calls[i + 1], calls[j + 1]);
    }
    if j :| 0 <= j < |rest| && ClashesWith(t', rest[j]) {
      assert ClashesWith(t, calls[j + 1]) || Clash(calls[0], calls[j + 1]);
    }
  }

  lemma {:induction false} LockedExactly(t: Tables, calls: seq<Call>)
    requires !t.locked
    ensures Run(t, calls).locked <==> Conflicting(t, calls)
    decreases |calls|
  {
    if calls != [] {
      if ClashesWith(t, calls[0]) {
            LockedStays(Step(t, calls[0]), calls[1..]);
      } else {
        ConflictingStep(t, calls);
        LockedExactly(Step(t, calls[0]), calls[1..]);
      }
    }
  }

  /**
   After any run of a fresh registry, lookups of proper names return exactly when no two of the
   run's registrations gave one command to different names.
   */
  lemma LookupsReturnExactly(calls: seq<Call>, hash: Name -> uint16, spelling: string)
    requires LookupKey(spelling).Some?
    ensures Lookup(Run(EMPTY, calls), hash, spelling) == Err(Awaiting)
            <==> exists i, j :: 0 <= i < j < |calls| && Clash(calls[i], calls[j])
  {
    LockedExactly(EMPTY, calls);
  }

  /** Two names given one command: from then on even the first of them is never answered. */
  lemma ClashBlocks(hash: Name -> uint16, first: string, second: string, cmd: uint16)
    requires Tight(first) && NoBlankAtDot(first) && Tight(second) && NoBlankAtDot(second) && first != second
    ensures var t := Run(EMPTY, [RegisterCall(first, cmd)]);
            && Lookup(t, hash, first) == Ok(cmd)
            && Register(t, second, cmd).1 == Conflict(first)
            && Lookup(Register(t, second, cmd).0, hash, first) == Err(Awaiting)
  {
    var calls := [RegisterCall(first, cmd)];
    TrimSpaceTight(first);
    TrimSpaceTight(second);
    OwnKeyIf(first);
    OwnKeyIf(second);
    assert calls[1..] == [];
    assert Run(EMPTY, calls) == Step(EMPTY, calls[0]);
    assert Step(EMPTY, calls[0]).methodCommand[first] == cmd;
  }

  lemma BlockedExample(hash: Name -> uint16)
    ensures var t := Run(EMPTY, [RegisterCall("A.x", 7)]);
            && Lookup(t, hash, "A.x") == Ok(7)
            && Lookup(Register(t, "A.y", 7).0, hash, "A.x") == Err(Awaiting)
  {
    LastDotIs("A.x", 1);
    LastDotIs("A.y", 1);
    assert "A.x"[2] != "A.y"[2];
    ClashBlocks(hash, "A.x", "A.y", 7);
  }

  // ----- when the two tables are inverse to each other -----

  lemma {:induction false} RunLast(t: Tables, calls: seq<Call>)
    requires calls != []
    ensures Run(t, calls) == Step(Run(t, calls[..|calls| - 1]), calls[|calls| - 1])
    decreases |calls|
  {
    if |calls| > 1 {
      assert calls[1..][..|calls| - 2] == calls[..|calls| - 1][1..];
      RunLast(Step(t, calls[0]), calls[1..]);
    }
  }

  /** The j-th call is a well-formed registration, and neither it nor one before it conflicts. */
  ghost predicate Binds(calls: seq<Call>, j: nat) {
    j < |calls| && WellFormed(calls[j]) && !Conflicting(EMPTY, calls[..j + 1])
  }

  lemma BindsEarlier(calls: seq<Call>, n: nat, j: nat)
    requires j < n <= |calls|
    ensures Binds(calls[..n], j) <==> Binds(calls, j)
  {
    assert calls[..n][..j + 1] == calls[..j + 1];
  }

  /** A registration that leaves the lock free has bound its command. */
  lemma StepBinds(t: Tables, c: Call)
    ensures Step(t, c).commandMethod ==
            if WellFormed(c) && !Step(t, c).locked then t.commandMethod[c.cmd := TrimSpace(c.fullMethod)]
            else t.commandMethod
  {
    if WellFormed(c) {
      RegisterOutcome(t, c.fullMethod, c.cmd, TrimSpace(c.fullMethod));
    }
  }

  lemma RegisterOutcome(t: Tables, fullMethod: string, cmd: uint16, key: string)
    requires key == TrimSpace(fullMethod) && SplitFullMethod(key).Some?
    ensures var (t', r) := Register(t, fullMethod, cmd);
            && (r == Bound <==> !t'.locked)
            && t'.commandMethod == if r == Bound then t.commandMethod[cmd := key] else t.commandMethod
  {
  }

  lemma LastBinds(calls: seq<Call>)
    requires calls != []
    ensures var n := |calls| - 1; var before := Run(EMPTY, calls[..n]).commandMethod;
            Run(EMPTY, calls).commandMethod ==
            if Binds(calls, n) then before[calls[n].cmd := TrimSpace(calls[n].fullMethod)] else before
  {
    var n := |calls| - 1;
    assert calls[..n + 1] == calls;
    RunLast(EMPTY, calls);
    LockedExactly(EMPTY, calls);
    StepBinds(Run(EMPTY, calls[..n]), calls[n]);
  }

  lemma LastKeeps(calls: seq<Call>)
    requires calls != []
    ensures KeepsBindings(Run(EMPTY, calls[..|calls| - 1]), Run(EMPTY, calls))
  {
    var n := |calls| - 1;
    RunLast(EMPTY, calls);
    RunConsistent(EMPTY, calls[..n]);
    StepConsistent(Run(EMPTY, calls[..n]), calls[n]);
  }

  ghost predicate BindsTo(calls: seq<Call>, j: nat, cmd: uint16, name: string) {
    Binds(calls, j) && calls[j].cmd == cmd && TrimSpace(calls[j].fullMethod) == name
  }

  predicate BoundTo(t: Tables, cmd: uint16, name: string) {
    cmd in t.commandMethod && t.commandMethod[cmd] == name
  }

  /** A command is bound to a name exactly by a registration before the first conflict. */
  lemma {:induction false} BoundExactly(calls: seq<Call>, cmd: uint16, name: string)
    ensures BoundTo(Run(EMPTY, calls), cmd, name) <==> exists j: nat :: BindsTo(calls, j, cmd, name)
    decreases |calls|
  {
    if calls != [] {
      var n := |calls| - 1;
      BoundExactly(calls[..n], cmd, name);
      LastBinds(calls);
      LastKeeps(calls);
      BindsToLast(calls, cmd, name);
    }
  }

  lemma BindsToLast(calls: seq<Call>, cmd: uint16, name: string)
    requires calls != []
    ensures var n := |calls| - 1;
            (exists j: nat :: BindsTo(calls, j, cmd, name)) <==>
            (exists j: nat :: BindsTo(calls[..n], j, cmd, name)) || BindsTo(calls, n, cmd, name)
  {
    var n := |calls| - 1;
    if j: nat :| BindsTo(calls, j, cmd, name) && j < n {
      BindsEarlier(calls, n, j);
      assert BindsTo(calls[..n], j, cmd, name);
    }
    if j: nat :| BindsTo(calls[..n], j, cmd, name) {
      BindsEarlier(calls, n, j);
      assert BindsTo(calls, j, cmd, name);
    }
  }

  /** Each table is the inverse of the other. */
  ghost predicate Inverse(t: Tables) {
    && (forall m :: m in t.methodCommand ==> BoundTo(t, t.methodCommand[m], m))
    && (forall c :: c in t.commandMethod ==>
          t.commandMethod[c] in t.methodCommand && t.methodCommand[t.commandMethod[c]] == c)
  }

  /** Two registrations give one name two commands. */
  predicate Renumbers(c: Call, d: Call) {
    WellFormed(c) && WellFormed(d) && TrimSpace(c.fullMethod) == TrimSpace(d.fullMethod) && c.cmd != d.cmd
  }

  /** Before the first conflict, a name was given a second command. */
  ghost predicate Renumbered(calls: seq<Call>) {
    exists i: nat, j: nat :: i < j && Binds(calls, j) && Renumbers(calls[i], calls[j])
  }

  lemma ConflictingMore(t: Tables, calls: seq<Call>, n: nat)
    requires n <= |calls|
    ensures Conflicting(t, calls[..n]) ==> Conflicting(t, calls)
  {
    var part := calls[..n];
    if j :| 0 <= j < n && ClashesWith(t, part[j]) {
      assert ClashesWith(t, calls[j]);
    } else if i, j :| 0 <= i < j < n && Clash(part[i], part[j]) {
      assert Clash(calls[i], calls[j]);
    }
  }

  lemma EarlierBinds(calls: seq<Call>, i: nat, j: nat)
    requires i < j && Binds(calls, j) && WellFormed(calls[i])
    ensures Binds(calls, i)
  {
    assert calls[..j + 1][..i + 1] == calls[..i + 1];
    ConflictingMore(EMPTY, calls[..j + 1], i + 1);
  }

  /** Two commands bound to one name: the table of names can lead back to one of them only. */
  lemma TwiceBound(t: Tables, c: uint16, d: uint16, name: string)
    requires c != d && BoundTo(t, c, name) && BoundTo(t, d, name)
    ensures !Inverse(t)
  {
    assert c in t.commandMethod && d in t.commandMethod;
  }

  lemma NotInverse(t: Tables) returns (c: uint16, d: uint16, name: string)
    requires Consistent(t) && !Inverse(t)
    ensures c != d && BoundTo(t, c, name) && BoundTo(t, d, name)
  {
    c :| c in t.commandMethod && t.methodCommand[t.commandMethod[c]] != c;
    name := t.commandMethod[c];
    d := t.methodCommand[name];
  }

  lemma BoundTwice(calls: seq<Call>, c: uint16, d: uint16, name: string)
    requires c != d && BoundTo(Run(EMPTY, calls), c, name) && BoundTo(Run(EMPTY, calls), d, name)
    ensures Renumbered(calls)
  {
    BoundExactly(calls, c, name);
    BoundExactly(calls, d, name);
    var i: nat :| BindsTo(calls, i, c, name);
    var j: nat :| BindsTo(calls, j, d, name);
    assert Renumbers(calls[i], calls[j]) && Renumbers(calls[j], calls[i]);
  }

  /**
   The tables are inverse to each other exactly if no name was given two commands before the
   first conflict: the command given first stays taken, though its name has moved to another one.
   */
  lemma InverseExactly(calls: seq<Call>)
    ensures Inverse(Run(EMPTY, calls)) <==> !Renumbered(calls)
  {
    RunConsistent(EMPTY, calls);
    if Renumbered(calls) {
      var i: nat, j: nat :| i < j && Binds(calls, j) && Renumbers(calls[i], calls[j]);
      var name := TrimSpace(calls[i].fullMethod);
      EarlierBinds(calls, i, j);
      assert BindsTo(calls, i, calls[i].cmd, name) && BindsTo(calls, j, calls[j].cmd, name);
      BoundExactly(calls, calls[i].cmd, name);
      BoundExactly(calls, calls[j].cmd, name);
      TwiceBound(Run(EMPTY, calls), calls[i].cmd, calls[j].cmd, name);
    } else if !Inverse(Run(EMPTY, calls)) {
      var c, d, name := NotInverse(Run(EMPTY, calls));
      BoundTwice(calls, c, d, name);
    }
  }

  /** A name given command 1 and then command 2: command 1 still names it, and is refused to every other name. */
  lemma RenumberedExample(name: string, other: string)
    requires Tight(name) && NoBlankAtDot(name) && Tight(other) && NoBlankAtDot(other) && name != other
    ensures var t := Register(Register(EMPTY, name, 1).0, name, 2).0;
            && t.methodCommand == map[name := 2] && t.commandMethod == map[1 := name, 2 := name]
            && Register(t, other, 1).1 == Conflict(name)
  {
    TrimSpaceTight(name);
    TrimSpaceTight(other);
    OwnKeyIf(name);
    OwnKeyIf(other);
  }

  // ----- every answer, from the calls -----

  /** The i-th call is the last to set the mode, and sets it to strict. */
  ghost predicate StrictSince(calls: seq<Call>, i: nat) {
    i < |calls| && calls[i] == StrictCall(true) && forall j :: i < j < |calls| ==> !calls[j].StrictCall?
  }

  ghost predicate StrictMode(calls: seq<Call>) {
    exists i: nat :: StrictSince(calls, i)
  }

  predicate Registers(c: Call, name: string) {
    c.RegisterCall? && TrimSpace(c.fullMethod) == name
  }

  /** The i-th call is the last registration of the name. */
  ghost predicate RegisteredSince(calls: seq<Call>, name: string, i: nat) {
    i < |calls| && Registers(calls[i], name) && forall j :: i < j < |calls| ==> !Registers(calls[j], name)
  }

  ghost predicate Registered(calls: seq<Call>, name: string) {
    exists i: nat :: RegisteredSince(calls, name, i)
  }

  lemma Unconflicted(calls: seq<Call>)
    requires calls != [] && !Conflicting(EMPTY, calls)
    ensures var n := |calls| - 1;
            && !Conflicting(EMPTY, calls[..n]) && !Run(EMPTY, calls[..n]).locked && !Run(EMPTY, calls).locked
            && Run(EMPTY, calls) == Step(Run(EMPTY, calls[..n]), calls[n])
  {
    var n := |calls| - 1;
    ConflictingMore(EMPTY, calls, n);
    LockedExactly(EMPTY, calls[..n]);
    LockedExactly(EMPTY, calls);
    RunLast(EMPTY, calls);
  }

  lemma {:induction false} StrictExactly(calls: seq<Call>)
    requires !Conflicting(EMPTY, calls)
    ensures Run(EMPTY, calls).strict <==> StrictMode(calls)
    decreases |calls|
  {
    if calls != [] {
      var n := |calls| - 1;
      var before := calls[..n];
      Unconflicted(calls);
      StrictExactly(before);
      assert forall j :: 0 <= j < n ==> before[j] == calls[j];
      if calls[n] == StrictCall(true) {
        assert StrictSince(calls, n);
      }
      if i: nat :| StrictSince(before, i) && !calls[n].StrictCall? {
        assert StrictSince(calls, i);
      }
      if i: nat :| StrictSince(calls, i) && i < n {
        assert StrictSince(before, i);
      }
    }
  }

  /** Without a conflict, a well-formed name is known exactly if it was registered, with its last command. */
  lemma {:induction false} KnownExactly(calls: seq<Call>, name: string)
    requires !Conflicting(EMPTY, calls) && SplitFullMethod(name).Some?
    ensures var t := Run(EMPTY, calls).methodCommand;
            && (name in t <==> Registered(calls, name))
            && forall i: nat :: RegisteredSince(calls, name, i) ==> name in t && t[name] == calls[i].cmd
    decreases |calls|
  {
    if calls != [] {
      var n := |calls| - 1;
      var before := calls[..n];
      Unconflicted(calls);
      KnownExactly(before, name);
      StepKnows(Run(EMPTY, before), calls[n], name);
      assert forall j :: 0 <= j < n ==> before[j] == calls[j];
      assert Registers(calls[n], name) ==> RegisteredSince(calls, name, n);
      forall i: nat
        ensures RegisteredSince(calls, name, i) <==>
                if Registers(calls[n], name) then i == n else RegisteredSince(before, name, i)
      {
      }
    }
  }

  lemma StepKnows(t: Tables, c: Call, name: string)
    requires !t.locked && !Step(t, c).locked && SplitFullMethod(name).Some?
    ensures var t' := Step(t, c).methodCommand;
            && (name in t' <==> name in t.methodCommand || Registers(c, name))
            && (name in t' ==> t'[name] == if Registers(c, name) then c.cmd else t.methodCommand[name])
  {
  }

  /**
   Every lookup after any run of a fresh registry. It waits forever after a clash; else it gives
   the command of the name's last registration; an unregistered name is an error if the mode
   was last set to strict, and has the hash of its parts as its command otherwise.
   */
  lemma LookupExactly(calls: seq<Call>, hash: Name -> uint16, spelling: string)
    ensures var r := Lookup(Run(EMPTY, calls), hash, spelling);
            match SplitFullMethod(TrimSpace(spelling))
            case None => r == Err(InvalidFormat)
            case Some(n) =>
              if exists i, j :: 0 <= i < j < |calls| && Clash(calls[i], calls[j]) then r == Err(Awaiting)
              else
                && (forall i: nat :: RegisteredSince(calls, Join(n), i) ==> r == Ok(calls[i].cmd))
                && (!Registered(calls, Join(n)) ==>
                    r == if StrictMode(calls) then Err(Unregistered(Join(n))) else Ok(hash(n)))
  {
    var name := SplitFullMethod(TrimSpace(spelling));
    if name.Some? {
      SplitTight(TrimSpace(spelling));
      SplitJoin(name.value);
      LockedExactly(EMPTY, calls);
      if !Conflicting(EMPTY, calls) {
        StrictExactly(calls);
        KnownExactly(calls, Join(name.value));
      }
    }
  }

  /** A fresh registry gives every well-formed name the hash of its parts. */
  lemma FreshLookup(hash: Name -> uint16, n: Name)
    requires n.service != "" && n.rpc != "" && Tight(n.service) && Tight(n.rpc) && '.' !in n.rpc
    ensures Lookup(Run(EMPTY, []), hash, Join(n)) == Ok(hash(n))
  {
    SplitJoin(n);
    TrimSpaceTight(Join(n));
  }

  /**
   Every registration after any run of a fresh registry: the outcome, and that only a command
   bound to another name, or a clash before, keeps a well-formed name from being bound.
   */
  lemma RegistrationExactly(calls: seq<Call>, fullMethod: string, cmd: uint16)
    ensures var r, key := Register(Run(EMPTY, calls), fullMethod, cmd).1, TrimSpace(fullMethod);
            if key == "" then r == EmptyName
            else if SplitFullMethod(key).None? then r == InvalidName
            else if Conflicting(EMPTY, calls) then r == Blocked
            else
              && (forall j: nat, name :: BindsTo(calls, j, cmd, name) && name != key ==> r == Conflict(name))
              && (!(exists j: nat, name :: BindsTo(calls, j, cmd, name) && name != key) ==> r == Bound)
  {
    LockedExactly(EMPTY, calls);
    CommandTaken(calls, cmd);
  }

  lemma CommandTaken(calls: seq<Call>, cmd: uint16)
    ensures var t := Run(EMPTY, calls).commandMethod;
            && (forall j: nat, name :: BindsTo(calls, j, cmd, name) ==> cmd in t && t[cmd] == name)
            && (cmd in t ==> exists j: nat :: BindsTo(calls, j, cmd, t[cmd]))
  {
    var t := Run(EMPTY, calls);
    forall j: nat, name | BindsTo(calls, j, cmd, name)
      ensures BoundTo(t, cmd, name)
    {
      BoundExactly(calls, cmd, name);
    }
    if cmd in t.commandMethod {
      assert BoundTo(t, cmd, t.commandMethod[cmd]);
      BoundExactly(calls, cmd, t.commandMethod[cmd]);
    }
  }

  // ----- what a registered name maps to -----

  /**
   Every spelling of a name maps to the command of the name's last registration, unless a
   registration after it conflicts; then the lookup never returns.
   */
  lemma LastRegistrationWins(
      t: Tables, hash: Name -> uint16, fullMethod: string, cmd: uint16, later: seq<Call>, spelling: string)
    requires Register(t, fullMethod, cmd).1 == Bound
    requires LeavesName(later, TrimSpace(fullMethod))
    requires LookupKey(spelling) == Some(TrimSpace(fullMethod))
    ensures var t' := Register(t, fullMethod, cmd).0;
            Lookup(Run(t', later), hash, spelling) == if Conflicting(t', later) then Err(Awaiting) else Ok(cmd)
  {
    BindingPersists(Register(t, fullMethod, cmd).0, later, TrimSpace(fullMethod));
    LockedExactly(Register(t, fullMethod, cmd).0, later);
  }

  /**
   In strict mode a registered method maps to its command under the very name it was registered
   with exactly when that name has no blank next to its last dot and no later registration conflicts.
   */
  lemma RegisteredNameFound(t: Tables, hash: Name -> uint16, fullMethod: string, cmd: uint16, later: seq<Call>)
    requires Consistent(t) && Register(t, fullMethod, cmd).1 == Bound
    requires LeavesName(later, TrimSpace(fullMethod))
    requires Run(Register(t, fullMethod, cmd).0, later).strict
    ensures var t' := Register(t, fullMethod, cmd).0;
            Lookup(Run(t', later), hash, fullMethod) == Ok(cmd)
            <==> NoBlankAtDot(TrimSpace(fullMethod)) && !Conflicting(t', later)
  {
    var key, t' := TrimSpace(fullMethod), Register(t, fullMethod, cmd).0;
    BindingPersists(t', later, key);
    StepConsistent(t, RegisterCall(fullMethod, cmd));
    RunConsistent(t', later);
    LockedExactly(t', later);
    OwnKey(fullMethod);
    var end := Run(t', later);
    if Lookup(end, hash, fullMethod) == Ok(cmd) {
      MethodsInjective(end, LookupKey(fullMethod).value, key);
    }
  }

  /** The names some lookup reaches are those without a blank next to the last dot. */
  lemma ReachedExactly(key: string)
    requires Tight(key)
    ensures NoBlankAtDot(key) <==> exists spelling :: LookupKey(spelling) == Some(key)
  {
    TrimSpaceTight(key);
    OwnKey(key);
    if spelling :| LookupKey(spelling) == Some(key) {
      LookupKeyNormal(spelling);
    }
  }

  lemma TrimBlankBefore(s: string)
    requires s != "" && Tight(s)
    ensures TrimSpace(" " + s) == s
  {
    assert (" " + s)[1..] == s;
    TrimSpaceTight(s);
  }

  /** The name with a blank between its last dot and the method. */
  function Blanked(n: Name): string {
    Join(Name(n.service, " " + n.rpc))
  }

  lemma BlankedParts(n: Name)
    requires n.service != "" && n.rpc != "" && Tight(n.service) && Tight(n.rpc) && '.' !in n.rpc
    ensures var s, k := Blanked(n), |n.service|;
            Tight(s) && LastDot(s) == k < |s| - 1 && s[..k] == n.service && s[k + 1..] == " " + n.rpc
  {
    var s := Blanked(n);
    assert s[0] == n.service[0] && s[|s| - 1] == n.rpc[|n.rpc| - 1];
    LastDotOfJoin(Name(n.service, " " + n.rpc));
  }

  /** The fate of every name written with a blank after its last dot: bound, and unknown to the strict lookup. */
  lemma BlankedNameLost(hash: Name -> uint16, n: Name, cmd: uint16)
    requires n.service != "" && n.rpc != "" && Tight(n.service) && Tight(n.rpc) && '.' !in n.rpc
    ensures var (t, r) := Register(EMPTY.(strict := true), Blanked(n), cmd);
            r == Bound && Lookup(t, hash, Blanked(n)) == Err(Unregistered(Join(n)))
  {
    BlankedParts(n);
    TrimSpaceTight(Blanked(n));
    TrimSpaceTight(n.service);
    TrimBlankBefore(n.rpc);
    assert SplitFullMethod(Blanked(n)) == Some(n);
    assert |Join(n)| != |Blanked(n)|;
  }

  /** In strict mode only registered names map, and only to a command they were registered with. */
  lemma StrictOnlyRegistered(calls: seq<Call>, hash: Name -> uint16, fullMethod: string) returns (i: nat)
    requires Run(EMPTY, calls).strict
    requires Lookup(Run(EMPTY, calls), hash, fullMethod).Ok?
    ensures i < |calls| && calls[i].RegisterCall?
    ensures Some(TrimSpace(calls[i].fullMethod)) == LookupKey(fullMethod)
    ensures Lookup(Run(EMPTY, calls), hash, fullMethod) == Ok(calls[i].cmd)
  {
    var origin := BindingOrigin(EMPTY, calls, LookupKey(fullMethod).value);
    i := origin.value;
  }

  /** The call a binding comes from; `None` if it was there before the run. */
  lemma {:induction false} BindingOrigin(t: Tables, calls: seq<Call>, key: string) returns (origin: Option<nat>)
    requires key in Run(t, calls).methodCommand
    ensures origin.None? ==> key in t.methodCommand && Run(t, calls).methodCommand[key] == t.methodCommand[key]
    ensures origin.Some? ==>
              var i := origin.value;
              && i < |calls| && calls[i].RegisterCall? && TrimSpace(calls[i].fullMethod) == key
              && Run(t, calls).methodCommand[key] == calls[i].cmd
    decreases |calls|
  {
    if calls == [] {
      return None;
    }
    origin := BindingOrigin(Step(t, calls[0]), calls[1..], key);
    if origin.Some? {
      return Some(origin.value + 1);
    }
    if !(key in t.methodCommand && t.methodCommand[key] == Run(t, calls).methodCommand[key]) {
      return Some(0);
    }
  }
}
