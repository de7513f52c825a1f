/** The Redis keyspace and the commands the ACL store sends; each command reads or writes one key. */
module RedisServer {
  import opened Wrappers

  /** A collection that becomes empty is removed with its key. */
  datatype Value = Text(text: string) | Members(members: set<string>) | Scores(scores: map<string, int>)

  type Keyspace = map<string, Value>

  datatype Op =
    | Set(text: string)
    | Del
    | SAdd(member: string)
    | SRem(member: string)
    | ZAdd(member: string, score: int)
    | ZRem(member: string)
    | ZRemUpTo(max: int)
    | SRemDelIfEmpty(member: string)
    | ZRemDelIfEmpty(member: string)

  datatype Command = Command(key: string, op: Op)

  function Kept(v: Value): Option<Value> {
    match v
    case Text(_) => Some(v)
    case Members(m) => if m == {} then None else Some(v)
    case Scores(z) => if z.Keys == {} then None else Some(v)
  }

  function SetWithout(v: Option<Value>, x: string): Option<Value> {
    if v.Some? && v.value.Members? then Kept(Members(v.value.members - {x})) else v
  }

  function ScoresWithout(v: Option<Value>, x: string): Option<Value> {
    if v.Some? && v.value.Scores? then Kept(Scores(v.value.scores - {x})) else v
  }

  /** The value of a key after an operation; an operation on a key of another type is refused and changes nothing. */
  function ApplyOp(v: Option<Value>, op: Op): Option<Value> {
    match op
    case Set(text) => Some(Text(text))
    case Del => None
    case SAdd(x) =>
      if v.None? then Some(Members({x}))
      else if v.value.Members? then Some(Members(v.value.members + {x})) else v
    case SRem(x) => SetWithout(v, x)
    case ZAdd(x, score) =>
      if v.None? then Some(Scores(map[x := score]))
      else if v.value.Scores? then Some(Scores(v.value.scores[x := score])) else v
    case ZRem(x) => ScoresWithout(v, x)
    case ZRemUpTo(max) =>
      if v.Some? && v.value.Scores?
      then Kept(Scores(map x | x in v.value.scores && v.value.scores[x] > max :: v.value.scores[x])) else v
    case SRemDelIfEmpty(x) =>
      var after := SetWithout(v, x);
      if after.Some? && after.value.Members? && after.value.members == {} then None else after
    case ZRemDelIfEmpty(x) =>
      var after := ScoresWithout(v, x);
      if after.Some? && after.value.Scores? && after.value.scores.Keys == {} then None else after
  }

  function Look(ks: Keyspace, key: string): Option<Value> {
    if key in ks then Some(ks[key]) else None
  }

  function Exec(ks: Keyspace, c: Command): Keyspace {
    match ApplyOp(Look(ks, c.key), c.op)
    case None => ks - {c.key}
    case Some(v) => ks[c.key := v]
  }

  /** The keyspace after the first `n` of the commands. */
  function ExecUpTo(ks: Keyspace, commands: seq<Command>, n: nat): Keyspace
    requires n <= |commands|
  {
    if n == 0 then ks else Exec(ExecUpTo(ks, commands, n - 1), commands[n - 1])
  }

  function ExecAll(ks: Keyspace, commands: seq<Command>): Keyspace {
    ExecUpTo(ks, commands, |commands|)
  }

  lemma ExecLook(ks: Keyspace, c: Command, key: string)
    ensures Look(Exec(ks, c), key) == if key == c.key then ApplyOp(Look(ks, key), c.op) else Look(ks, key)
  {
  }

  lemma {:induction false} ExecAppend(ks: Keyspace, first: seq<Command>, second: seq<Command>, n: nat)
    requires n <= |second|
    ensures ExecUpTo(ks, first + second, |first| + n) == ExecUpTo(ExecAll(ks, first), second, n)
  {
    if n == 0 {
      ExecPrefix(ks, first, second, |first|);
    } else {
      ExecAppend(ks, first, second, n - 1);
    }
  }

  lemma {:induction false} ExecPrefix(ks: Keyspace, first: seq<Command>, second: seq<Command>, n: nat)
    requires n <= |first|
    ensures ExecUpTo(ks, first + second, n) == ExecUpTo(ks, first, n)
  {
    if n > 0 {
      ExecPrefix(ks, first, second, n - 1);
    }
  }

  // ----- reads -----

  function SMembers(ks: Keyspace, key: string): set<string> {
    if key in ks && ks[key].Members? then ks[key].members else {}
  }

  /** Members with their scores; ZRANGE 0 -1 returns its keys. */
  function ZScores(ks: Keyspace, key: string): map<string, int> {
    if key in ks && ks[key].Scores? then ks[key].scores else map[]
  }

  function GetText(ks: Keyspace, key: string): Option<string> {
    if key in ks && ks[key].Text? then Some(ks[key].text) else None
  }

  predicate SIsMember(ks: Keyspace, key: string, member: string) {
    member in SMembers(ks, key)
  }

  function ZScore(ks: Keyspace, key: string, member: string): Option<int> {
    if member in ZScores(ks, key) then Some(ZScores(ks, key)[member]) else None
  }

  /** Members with a score above `min`. */
  function ZRangeAbove(ks: Keyspace, key: string, min: int): set<string> {
    set x | x in ZScores(ks, key) && ZScores(ks, key)[x] > min
  }

  /** The server and its client: `Pipeline` sends commands one after the other. */
  class Redis {
    var ks: Keyspace
    /** Every command executed so far, in order. */
    ghost var sent: seq<Command>

    constructor ()
      ensures ks == map[] && sent == []
    {
      ks, sent := map[], [];
    }

    method Do(c: Command)
      modifies this
      ensures ks == Exec(old(ks), c) && sent == old(sent) + [c]
    {
      ks := Exec(ks, c);
      sent := sent + [c];
    }

    method Pipeline(commands: seq<Command>)
      modifies this
      ensures ks == ExecAll(old(ks), commands) && sent == old(sent) + commands
    {
      var i := 0;
      while i < |commands|
        invariant i <= |commands|
        invariant ks == ExecUpTo(old(ks), commands, i) && sent == old(sent) + commands[..i]
      {
        Do(commands[i]);
        i := i + 1;
      }
    }
  }
}
