/**
 * What an edit run guarantees, stated about the specification `Edited`
 * (and so, through the contract of `EnvEdit.Run`, about the run itself).
 */
module EditProperties {
  import opened Options
  import opened Pairs
  import opened KmsNames
  import opened DiffLines
  import opened EnvEdit

  /** What the j-th argument asks for. */
  function Written(args: seq<string>, j: nat, encrypt: bool, kms: nat -> KmsReply): Parsed
    requires j < |args|
  {
    Assignment(args[j], encrypt, kms(j))
  }

  /** The j-th argument stores a value under `key`. */
  predicate WritesKey(args: seq<string>, j: nat, encrypt: bool, kms: nat -> KmsReply, key: string)
    requires j < |args|
  {
    Written(args, j, encrypt, kms).Assign? && Written(args, j, encrypt, kms).key == key
  }

  /**
   * What one argument asks for: a pair without `=` is malformed; with
   * encryption on, a refused Encrypt call stops the run; otherwise the key
   * is the text before the first `=` (renamed to end in `_KMS` when
   * encrypting) and the value is the rest, or the ciphertext when encrypting.
   */
  lemma AssignmentMeaning(pair: string, encrypt: bool, reply: KmsReply)
    ensures '=' !in pair ==> Assignment(pair, encrypt, reply) == Abort(Malformed(pair))
    ensures '=' in pair && encrypt && reply.KmsFailure? ==>
      Assignment(pair, encrypt, reply) == Abort(KmsError(reply.message))
    ensures Assignment(pair, encrypt, reply).Assign? <==> '=' in pair && (encrypt ==> reply.Ciphertext?)
    ensures Assignment(pair, encrypt, reply).Assign? && !encrypt ==>
      var a := Assignment(pair, encrypt, reply);
      a.key + "=" + a.value == pair && '=' !in a.key
    ensures Assignment(pair, encrypt, reply).Assign? && encrypt ==>
      var a := Assignment(pair, encrypt, reply);
      var plain := Assignment(pair, false, reply);
      && HasSuffix(a.key, KmsSuffix)
      && a.key == KmsName(plain.key)
      && a.value == reply.encoded
  {
    SplitPairRoundTrip(pair);
    match SplitPair(pair)
    case None =>
    case Some((k, v)) =>
      KmsNameShape(k);
  }

  /**
   * Setting a key: after a well-formed argument the key holds the new
   * value, every other key is as before, and the log gains `- k=old` then
   * `+ k=new` when the key was present, or only `+ k=new` when it was not.
   */
  lemma SetStoresKey(envs: Record, lines: seq<Line>, pair: string, encrypt: bool, reply: KmsReply)
    requires Assignment(pair, encrypt, reply).Assign?
    ensures
      var (k, v) := (Assignment(pair, encrypt, reply).key, Assignment(pair, encrypt, reply).value);
      var p := Step(Running(envs, lines), pair, encrypt, reply);
      && p.Running?
      && k in p.envs && p.envs[k] == v
      && (forall key :: key != k ==> (key in p.envs <==> key in envs))
      && (forall key :: key != k && key in envs ==> p.envs[key] == envs[key])
      && p.lines == lines + (if k in envs then [Removed(k, envs[k]), Added(k, v)] else [Added(k, v)])
  {
  }

  /**
   * Deleting an absent key is an error: the run fails with only the
   * "doesn't exist" line, before any argument is looked at, so nothing is
   * written back.
   */
  lemma DeleteAbsentFails(stored: Record, deleteKey: string, args: seq<string>, encrypt: bool, kms: nat -> KmsReply)
    requires deleteKey != "" && deleteKey !in stored
    ensures Edited(stored, deleteKey, args, encrypt, kms) == Failure([Missing(deleteKey)])
    ensures Edited(stored, deleteKey, args, encrypt, kms).ExitCode() == 1
  {
    StopIsFinal(Delete(stored, deleteKey), args, 0, |args|, encrypt, kms);
  }

  /** `p` with `pre` put in front of the lines it printed. */
  function AfterLines(pre: seq<Line>, p: Progress): Progress
  {
    match p
    case Running(envs, lines) => Running(envs, pre + lines)
    case Stopped(lines) => Stopped(pre + lines)
  }

  /** Lines printed before the loop starts stay in front of everything it prints. */
  lemma {:induction false} ReplayAfterLines(envs: Record, pre: seq<Line>, args: seq<string>, n: nat, encrypt: bool, kms: nat -> KmsReply)
    requires n <= |args|
    ensures Replay(Running(envs, pre), args, n, encrypt, kms) == AfterLines(pre, Replay(Running(envs, []), args, n, encrypt, kms))
  {
    if n > 0 {
      ReplayAfterLines(envs, pre, args, n - 1, encrypt, kms);
      var p := Replay(Running(envs, []), args, n - 1, encrypt, kms);
      if p.Running? {
        match Assignment(args[n - 1], encrypt, kms(n - 1))
        case Abort(l) =>
          assert (pre + p.lines) + [l] == pre + (p.lines + [l]);
        case Assign(k, v) =>
          assert (pre + p.lines) + SetLines(p.envs, k, v) == pre + (p.lines + SetLines(p.envs, k, v));
      }
    }
  }

  /**
   * Deleting a present key comes first: the run is the run without a delete
   * key on the record minus that key, preceded by exactly one `- key=old`
   * line.
   */
  lemma DeleteComesFirst(stored: Record, deleteKey: string, args: seq<string>, encrypt: bool, kms: nat -> KmsReply)
    requires deleteKey != "" && deleteKey in stored
    ensures
      var removed := [Removed(deleteKey, stored[deleteKey])];
      Edited(stored, deleteKey, args, encrypt, kms) ==
        match Edited(stored - {deleteKey}, "", args, encrypt, kms)
        case Persist(record, lines) => Persist(record, removed + lines)
        case Failure(lines) => Failure(removed + lines)
        // `Edited` never lists; this branch only completes the match.
        case Listing(lines) => Listing(lines)
  {
    ReplayAfterLines(stored - {deleteKey}, [Removed(deleteKey, stored[deleteKey])], args, |args|, encrypt, kms);
  }

  /**
   * Deleting a present key with no arguments: the key is gone, every other
   * entry is kept, and the only output is `- key=old`.
   */
  lemma DeleteOnly(stored: Record, deleteKey: string, encrypt: bool, kms: nat -> KmsReply)
    requires deleteKey != "" && deleteKey in stored
    ensures Edited(stored, deleteKey, [], encrypt, kms).Persist?
    ensures
      var o := Edited(stored, deleteKey, [], encrypt, kms);
      && deleteKey !in o.record
      && (forall k :: k != deleteKey ==> (k in o.record <==> k in stored))
      && (forall k :: k in o.record ==> o.record[k] == stored[k])
      && o.lines == [Removed(deleteKey, stored[deleteKey])]
  {
  }

  /** A run that is still going after n arguments was going after every earlier one. */
  lemma {:induction false} RunningBefore(start: Progress, args: seq<string>, m: nat, n: nat, encrypt: bool, kms: nat -> KmsReply)
    requires m <= n <= |args|
    requires Replay(start, args, n, encrypt, kms).Running?
    ensures Replay(start, args, m, encrypt, kms).Running?
  {
    if Replay(start, args, m, encrypt, kms).Stopped? {
      StopIsFinal(start, args, m, n, encrypt, kms);
    }
  }

  /**
   * A malformed argument stops the run there: the output is what the
   * earlier arguments printed plus the error line, and no later argument is
   * applied.
   */
  lemma MalformedPairStops(start: Progress, args: seq<string>, j: nat, encrypt: bool, kms: nat -> KmsReply)
    requires j < |args| && '=' !in args[j]
    requires Replay(start, args, j, encrypt, kms).Running?
    ensures Replay(start, args, |args|, encrypt, kms)
         == Stopped(Replay(start, args, j, encrypt, kms).lines + [Malformed(args[j])])
  {
    AssignmentMeaning(args[j], encrypt, kms(j));
    StopIsFinal(start, args, j + 1, |args|, encrypt, kms);
  }

  /** Each of the first n arguments has an `=` and, when encrypting, a successful Encrypt call. */
  predicate WellFormedArgs(args: seq<string>, n: nat, encrypt: bool, kms: nat -> KmsReply)
    requires n <= |args|
  {
    forall j :: 0 <= j < n ==> '=' in args[j] && (encrypt ==> kms(j).Ciphertext?)
  }

  /** Well-formed arguments never stop the loop. */
  lemma {:induction false} RunsWhenWellFormed(envs0: Record, lines0: seq<Line>, args: seq<string>, n: nat, encrypt: bool, kms: nat -> KmsReply)
    requires n <= |args|
    requires WellFormedArgs(args, n, encrypt, kms)
    ensures Replay(Running(envs0, lines0), args, n, encrypt, kms).Running?
  {
    if n > 0 {
      RunsWhenWellFormed(envs0, lines0, args, n - 1, encrypt, kms);
      AssignmentMeaning(args[n - 1], encrypt, kms(n - 1));
    }
  }

  /**
   * A run writes back exactly when its delete key is empty or present, every
   * argument is well-formed, and, when encrypting, every Encrypt call succeeds.
   */
  lemma PersistsIffWellFormed(stored: Record, deleteKey: string, args: seq<string>, encrypt: bool, kms: nat -> KmsReply)
    ensures Edited(stored, deleteKey, args, encrypt, kms).Persist?
        <==> (deleteKey == "" || deleteKey in stored) && WellFormedArgs(args, |args|, encrypt, kms)
  {
    var start := Delete(stored, deleteKey);
    if Edited(stored, deleteKey, args, encrypt, kms).Persist? {
      RunningBefore(start, args, 0, |args|, encrypt, kms);
      forall j | 0 <= j < |args| ensures '=' in args[j] && (encrypt ==> kms(j).Ciphertext?) {
        RunningBefore(start, args, j, |args|, encrypt, kms);
        RunningBefore(start, args, j + 1, |args|, encrypt, kms);
        AssignmentMeaning(args[j], encrypt, kms(j));
      }
    }
    if (deleteKey == "" || deleteKey in stored) && WellFormedArgs(args, |args|, encrypt, kms) {
      RunsWhenWellFormed(start.envs, start.lines, args, |args|, encrypt, kms);
    }
  }

  /** Argument j writes a key that no argument after it, up to n, writes again. */
  predicate LastWriter(args: seq<string>, j: nat, n: nat, encrypt: bool, kms: nat -> KmsReply)
    requires j < n <= |args|
  {
    && Written(args, j, encrypt, kms).Assign?
    && forall j' :: j < j' < n ==> !WritesKey(args, j', encrypt, kms, Written(args, j, encrypt, kms).key)
  }

  /** None of the first n arguments writes `key`. */
  predicate Untouched(args: seq<string>, n: nat, encrypt: bool, kms: nat -> KmsReply, key: string)
    requires n <= |args|
  {
    forall j :: 0 <= j < n ==> !WritesKey(args, j, encrypt, kms, key)
  }

  /**
   * Later arguments win: after a run that did not stop, a key written by
   * some argument holds the value of the last argument that wrote it, and a
   * key no argument wrote is exactly as it was before the loop.
   */
  lemma {:induction false} LastWriteWins(envs0: Record, lines0: seq<Line>, args: seq<string>, n: nat, encrypt: bool, kms: nat -> KmsReply)
    requires n <= |args|
    requires Replay(Running(envs0, lines0), args, n, encrypt, kms).Running?
    ensures
      var envs := Replay(Running(envs0, lines0), args, n, encrypt, kms).envs;
      forall j :: 0 <= j < n && LastWriter(args, j, n, encrypt, kms) ==>
        Written(args, j, encrypt, kms).key in envs
        && envs[Written(args, j, encrypt, kms).key] == Written(args, j, encrypt, kms).value
    ensures
      var envs := Replay(Running(envs0, lines0), args, n, encrypt, kms).envs;
      forall key :: Untouched(args, n, encrypt, kms, key) ==>
        (key in envs <==> key in envs0) && (key in envs0 ==> envs[key] == envs0[key])
  {
    if n > 0 {
      var start := Running(envs0, lines0);
      RunningBefore(start, args, n - 1, n, encrypt, kms);
      LastWriteWins(envs0, lines0, args, n - 1, encrypt, kms);
      var before := Replay(start, args, n - 1, encrypt, kms).envs;
      var envs := Replay(start, args, n, encrypt, kms).envs;
      var last := Written(args, n - 1, encrypt, kms);
      assert last.Assign? && envs == before[last.key := last.value];
      forall j | 0 <= j < n && LastWriter(args, j, n, encrypt, kms)
        ensures Written(args, j, encrypt, kms).key in envs
        ensures envs[Written(args, j, encrypt, kms).key] == Written(args, j, encrypt, kms).value
      {
        if j < n - 1 {
          assert !WritesKey(args, n - 1, encrypt, kms, Written(args, j, encrypt, kms).key);
          assert LastWriter(args, j, n - 1, encrypt, kms);
        }
      }
      forall key | Untouched(args, n, encrypt, kms, key)
        ensures (key in envs <==> key in envs0) && (key in envs0 ==> envs[key] == envs0[key])
      {
        assert !WritesKey(args, n - 1, encrypt, kms, key);
        assert Untouched(args, n - 1, encrypt, kms, key);
      }
    }
  }

  /** The `+ key=value` lines among `lines`, in order. */
  function Additions(lines: seq<Line>): seq<Line>
  {
    if lines == [] then []
    else (if lines[0].Added? then [lines[0]] else []) + Additions(lines[1..])
  }

  lemma {:induction false} AdditionsAppend(a: seq<Line>, b: seq<Line>)
    ensures Additions(a + b) == Additions(a) + Additions(b)
  {
    if a == [] {
      assert a + b == b;
    } else {
      assert (a + b)[0] == a[0];
      assert (a + b)[1..] == a[1..] + b;
      AdditionsAppend(a[1..], b);
    }
  }

  /** Storing one value adds exactly one `+` line, for that key and value. */
  lemma AdditionsOfSetLines(envs: Record, key: string, value: string)
    ensures Additions(SetLines(envs, key, value)) == [Added(key, value)]
  {
    var added := [Added(key, value)];
    assert added[1..] == [];
    if key in envs {
      var removed := [Removed(key, envs[key])];
      assert removed[1..] == [];
      AdditionsAppend(removed, added);
    } else {
      assert SetLines(envs, key, value) == added;
    }
  }

  /**
   * The change log follows the input order: after a run that did not stop,
   * its `+` lines are those printed before the loop followed by one
   * `+ key=value` line per argument, in argument order.
   */
  lemma {:induction false} AdditionsInOrder(envs0: Record, lines0: seq<Line>, args: seq<string>, n: nat, encrypt: bool, kms: nat -> KmsReply)
    requires n <= |args|
    requires Replay(Running(envs0, lines0), args, n, encrypt, kms).Running?
    ensures
      var added := Additions(Replay(Running(envs0, lines0), args, n, encrypt, kms).lines);
      && |added| == |Additions(lines0)| + n
      && added[..|Additions(lines0)|] == Additions(lines0)
      && forall j :: 0 <= j < n ==>
           Written(args, j, encrypt, kms).Assign?
           && added[|Additions(lines0)| + j] == Added(Written(args, j, encrypt, kms).key, Written(args, j, encrypt, kms).value)
  {
    if n > 0 {
      var start := Running(envs0, lines0);
      RunningBefore(start, args, n - 1, n, encrypt, kms);
      AdditionsInOrder(envs0, lines0, args, n - 1, encrypt, kms);
      var before := Replay(start, args, n - 1, encrypt, kms);
      var last := Written(args, n - 1, encrypt, kms);
      assert last.Assign?;
      var log := SetLines(before.envs, last.key, last.value);
      assert Replay(start, args, n, encrypt, kms).lines == before.lines + log;
      AdditionsAppend(before.lines, log);
      AdditionsOfSetLines(before.envs, last.key, last.value);
    }
  }
}
