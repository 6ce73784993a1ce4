/**
 * The edit pipeline of one run of the tool: the fetched record is loaded
 * into the in-memory map `envs`; with no arguments and no delete key the
 * entries are listed; otherwise the delete key is removed, the `KEY=VALUE`
 * arguments are applied in order (optionally encrypted and renamed with a
 * `_KMS` suffix), every change is logged as `-`/`+` lines, and the final map
 * is what gets written back.
 *
 * `Run` and the methods it calls are the imperative model of that code;
 * `Edited` is the specification they are proved against, and the module
 * EditProperties states what that specification guarantees.
 */
module EnvEdit {
  import opened Options
  import opened Pairs
  import opened KmsNames
  import opened DiffLines

  /** Variable name to value; the stored `{"Value": v}` object is just `v`. */
  type Record = map<string, string>

  /**
   * What the encryption service answers to one Encrypt call: the ciphertext,
   * already base64-encoded, or the error it reported.
   */
  datatype KmsReply = Ciphertext(encoded: string) | KmsFailure(message: string)

  /** How a run ends, and everything it printed on the way. */
  datatype Outcome =
    | Listing(lines: seq<Line>)                    // list path: nothing written
    | Failure(lines: seq<Line>)                    // error exit: nothing written
    | Persist(record: Record, lines: seq<Line>)    // `record` is written back
  {
    /** The process exit status: 1 for an error, 0 otherwise. */
    function ExitCode(): int
    {
      if Failure? then 1 else 0
    }
  }

  /** The state of the edit after some steps: still going, or stopped with an error. */
  datatype Progress = Running(envs: Record, lines: seq<Line>) | Stopped(lines: seq<Line>)

  /** What one argument asks for: store `value` under `key`, or end the run with `line`. */
  datatype Parsed = Assign(key: string, value: string) | Abort(line: Line)

  /**
   * The store that argument `pair` asks for, given whether encryption is on
   * and what the encryption service answered for it.
   */
  function Assignment(pair: string, encrypt: bool, reply: KmsReply): Parsed
  {
    match SplitPair(pair)
    case None => Abort(Malformed(pair))
    case Some((k, v)) =>
      if !encrypt then Assign(k, v)
      else
        match reply
        case KmsFailure(msg) => Abort(KmsError(msg))
        case Ciphertext(c) => Assign(KmsName(k), c)
  }

  /** The change log for storing `value` under `key` in `envs`. */
  function SetLines(envs: Record, key: string, value: string): seq<Line>
  {
    (if key in envs then [Removed(key, envs[key])] else []) + [Added(key, value)]
  }

  /** One iteration of the set loop, for the argument `pair`. */
  function Step(p: Progress, pair: string, encrypt: bool, reply: KmsReply): Progress
  {
    match p
    case Stopped(_) => p
    case Running(envs, lines) =>
      match Assignment(pair, encrypt, reply)
      case Abort(l) => Stopped(lines + [l])
      case Assign(k, v) => Running(envs[k := v], lines + SetLines(envs, k, v))
  }

  /**
   * The set loop after its first `n` arguments, from `start`; the i-th
   * argument gets the answer to the i-th Encrypt call, `kms(i)`.
   */
  function Replay(start: Progress, args: seq<string>, n: nat, encrypt: bool, kms: nat -> KmsReply): Progress
    requires n <= |args|
  {
    if n == 0 then start
    else Step(Replay(start, args, n - 1, encrypt, kms), args[n - 1], encrypt, kms(n - 1))
  }

  /**
   * The delete step. No key (`""`) changes nothing; a present key is removed
   * with one `-` line and every other entry is kept; an absent key stops the
   * run with the "doesn't exist" line.
   */
  function Delete(envs: Record, key: string): (p: Progress)
    ensures key == "" ==> p == Running(envs, [])
    ensures key != "" && key in envs ==>
      && p.Running?
      && p.envs.Keys == envs.Keys - {key}
      && (forall k :: k in p.envs ==> p.envs[k] == envs[k])
      && p.lines == [Removed(key, envs[key])]
    ensures key != "" && key !in envs ==> p == Stopped([Missing(key)])
  {
    if key == "" then Running(envs, [])
    else if key in envs then Running(envs - {key}, [Removed(key, envs[key])])
    else Stopped([Missing(key)])
  }

  /** The outcome of an edit run (one with a delete key or some arguments). */
  function Edited(stored: Record, deleteKey: string, args: seq<string>, encrypt: bool, kms: nat -> KmsReply): Outcome
  {
    match Replay(Delete(stored, deleteKey), args, |args|, encrypt, kms)
    case Stopped(lines) => Failure(lines)
    case Running(envs, lines) => Persist(envs, lines)
  }

  /**
   * `lines` holds exactly one `key=value` line for each key of `keys`, with
   * its value in `envs`, in some order.
   */
  predicate ListsKeys(lines: seq<Line>, envs: Record, keys: set<string>)
  {
    && keys <= envs.Keys
    && |lines| == |keys|
    && (forall i :: 0 <= i < |lines| ==> lines[i].Entry? && lines[i].key in keys && lines[i].value == envs[lines[i].key])
    && (forall k :: k in keys ==> Entry(k, envs[k]) in lines)
    && (forall i, j :: 0 <= i < j < |lines| ==> lines[i] != lines[j])
  }

  /** `lines` is a complete listing of `envs`: one line per entry, no order promised. */
  predicate ListsExactly(lines: seq<Line>, envs: Record)
  {
    ListsKeys(lines, envs, envs.Keys)
  }

  /** Printing the entry of one more key extends a partial listing. */
  lemma ListsKeysExtend(lines: seq<Line>, envs: Record, keys: set<string>, k: string)
    requires ListsKeys(lines, envs, keys)
    requires k in envs && k !in keys
    ensures ListsKeys(lines + [Entry(k, envs[k])], envs, keys + {k})
  {
    assert |keys + {k}| == |keys| + 1;
    var lines' := lines + [Entry(k, envs[k])];
    forall i, j | 0 <= i < j < |lines'| ensures lines'[i] != lines'[j] {
      if j == |lines| {
        assert lines[i].key in keys;
      }
    }
  }

  /** Copies the fetched record into a fresh map, entry by entry. */
  method Load(fetched: Record) returns (envs: Record)
    ensures envs == fetched
  {
    envs := map[];
    var rest := fetched.Keys;
    while rest != {}
      invariant rest <= fetched.Keys
      invariant envs.Keys == fetched.Keys - rest
      invariant forall k :: k in envs ==> envs[k] == fetched[k]
      decreases rest
    {
      var k :| k in rest;
      envs := envs[k := fetched[k]];
      rest := rest - {k};
    }
  }

  /** Prints every entry as `key=value`, in whatever order the map yields them. */
  method ListEntries(envs: Record) returns (lines: seq<Line>)
    ensures ListsExactly(lines, envs)
  {
    lines := [];
    var rest := envs.Keys;
    while rest != {}
      invariant rest <= envs.Keys
      invariant ListsKeys(lines, envs, envs.Keys - rest)
      decreases rest
    {
      var k :| k in rest;
      ListsKeysExtend(lines, envs, envs.Keys - rest, k);
      lines := lines + [Entry(k, envs[k])];
      assert envs.Keys - (rest - {k}) == (envs.Keys - rest) + {k};
      rest := rest - {k};
    }
  }

  /**
   * One iteration of the set loop, for the argument `pair`: parse it, on
   * encryption take the service's answer and rename the key, then log and
   * store the value. `ok` is false when the run must stop, and `lines'`
   * then ends with the error line.
   */
  method SetPair(envs: Record, lines: seq<Line>, pair: string, encrypt: bool, reply: KmsReply)
    returns (ok: bool, envs': Record, lines': seq<Line>)
    ensures Step(Running(envs, lines), pair, encrypt, reply) == if ok then Running(envs', lines') else Stopped(lines')
  {
    envs', lines' := envs, lines;
    match SplitPair(pair)
    case None =>
      return false, envs', lines' + [Malformed(pair)];
    case Some((k0, v0)) =>
      var k, v := k0, v0;
      if encrypt {
        match reply
        case KmsFailure(msg) =>
          return false, envs', lines' + [KmsError(msg)];
        case Ciphertext(c) =>
          v := c;
          k := KmsName(k);
      }
      assert Assignment(pair, encrypt, reply) == Assign(k, v);
      if k in envs' {
        lines' := lines' + [Removed(k, envs'[k])];
      }
      envs' := envs'[k := v];
      lines' := lines' + [Added(k, v)];
      assert lines' == lines + SetLines(envs, k, v);
      ok := true;
  }

  /**
   * The set loop: applies the arguments in order to `envs`, appending the
   * change log to `lines`, and stops at the first argument that is not a pair
   * or whose encryption fails.
   */
  method SetPairs(envs0: Record, lines0: seq<Line>, args: seq<string>, encrypt: bool, kms: nat -> KmsReply)
    returns (p: Progress)
    ensures p == Replay(Running(envs0, lines0), args, |args|, encrypt, kms)
  {
    ghost var start := Running(envs0, lines0);
    var envs, lines := envs0, lines0;
    var i := 0;
    while i < |args|
      invariant 0 <= i <= |args|
      invariant Replay(start, args, i, encrypt, kms).Running?
      invariant Replay(start, args, i, encrypt, kms).envs == envs
      invariant Replay(start, args, i, encrypt, kms).lines == lines
    {
      var ok;
      ok, envs, lines := SetPair(envs, lines, args[i], encrypt, kms(i));
      if !ok {
        StopIsFinal(start, args, i + 1, |args|, encrypt, kms);
        return Stopped(lines);
      }
      i := i + 1;
    }
    return Running(envs, lines);
  }

  /** Once the loop has stopped after m arguments, the arguments after them change nothing. */
  lemma {:induction false} StopIsFinal(start: Progress, args: seq<string>, m: nat, n: nat, encrypt: bool, kms: nat -> KmsReply)
    requires m <= n <= |args|
    requires Replay(start, args, m, encrypt, kms).Stopped?
    ensures Replay(start, args, n, encrypt, kms) == Replay(start, args, m, encrypt, kms)
    decreases n - m
  {
    if m < n {
      StopIsFinal(start, args, m, n - 1, encrypt, kms);
    }
  }

  /**
   * One run of the tool over the fetched record: the list path when there
   * is nothing to do, otherwise the edit, which either fails or yields the
   * record to write back.
   */
  method Run(fetched: Record, deleteKey: string, args: seq<string>, encrypt: bool, kms: nat -> KmsReply)
    returns (o: Outcome)
    ensures args == [] && deleteKey == "" ==> o.Listing? && ListsExactly(o.lines, fetched)
    ensures !(args == [] && deleteKey == "") ==> o == Edited(fetched, deleteKey, args, encrypt, kms)
  {
    var envs := Load(fetched);
    if |args| == 0 && deleteKey == "" {
      var listed := ListEntries(envs);
      return Listing(listed);
    }

    var lines: seq<Line> := [];
    if deleteKey != "" {
      if deleteKey in envs {
        lines := lines + [Removed(deleteKey, envs[deleteKey])];
        envs := envs - {deleteKey};
      } else {
        lines := lines + [Missing(deleteKey)];
        StopIsFinal(Delete(fetched, deleteKey), args, 0, |args|, encrypt, kms);
        return Failure(lines);
      }
    }
    assert Delete(fetched, deleteKey) == Running(envs, lines);

    var p := SetPairs(envs, lines, args, encrypt, kms);
    match p
    case Stopped(out) =>
      return Failure(out);
    case Running(final, out) =>
      return Persist(final, out);
  }
}
