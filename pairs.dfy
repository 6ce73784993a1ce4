/**
 * Parsing of the positional `KEY=VALUE` arguments: the argument is cut at
 * its first `=` only (Go's `strings.SplitN(pair, "=", 2)`), and an argument
 * without any `=` is not a pair at all.
 */
module Pairs {
  import opened Options

  /** The position of the first `c` in `s` at or after `from`, or None when there is none. */
  function FirstIndexFrom(s: string, c: char, from: nat): (r: Option<nat>)
    requires from <= |s|
    ensures r.None? ==> forall j :: from <= j < |s| ==> s[j] != c
    ensures r.Some? ==> from <= r.value < |s| && s[r.value] == c && forall j :: from <= j < r.value ==> s[j] != c
    decreases |s| - from
  {
    if from == |s| then None
    else if s[from] == c then Some(from)
    else FirstIndexFrom(s, c, from + 1)
  }

  /**
   * `strings.SplitN(pair, "=", 2)` followed by the check that it gave two
   * parts: the key before the first `=` and the value after it, or None.
   */
  function SplitPair(pair: string): Option<(string, string)>
  {
    match FirstIndexFrom(pair, '=', 0)
    case None => None
    case Some(i) => Some((pair[..i], pair[i + 1..]))
  }

  /**
   * The split fails exactly on arguments without `=`; otherwise gluing the
   * parts back with `=` gives the argument unchanged (nothing is trimmed),
   * and the key holds no `=`.
   */
  lemma SplitPairRoundTrip(pair: string)
    ensures SplitPair(pair).None? <==> '=' !in pair
    ensures SplitPair(pair).Some? ==>
      var (key, value) := SplitPair(pair).value;
      key + "=" + value == pair && '=' !in key
  {
    match FirstIndexFrom(pair, '=', 0)
    case None =>
    case Some(i) =>
      assert pair == pair[..i] + "=" + pair[i + 1..];
  }

  /**
   * The split is the only way to read `pair` as key `=` value with an
   * `=`-free key: in particular the value keeps every later `=`, and
   * `KEY=` has the empty value.
   */
  lemma SplitPairUnique(pair: string, key: string, value: string)
    requires key + "=" + value == pair && '=' !in key
    ensures SplitPair(pair) == Some((key, value))
  {
    assert pair[..|key|] == key;
    assert pair[|key|] == '=';
    var i := FirstIndexFrom(pair, '=', 0).value;
    assert pair[..i] == key;
    assert pair[i + 1..] == value;
  }

  /** Worked cases: later `=` stay in the value, `KEY=` is empty, spaces stay. */
  lemma SplitPairExamples()
    ensures SplitPair("A=b=c") == Some(("A", "b=c"))
    ensures SplitPair("KEY=") == Some(("KEY", ""))
    ensures SplitPair(" K = v ") == Some((" K ", " v "))
    ensures SplitPair("=v") == Some(("", "v"))
  {
    SplitPairUnique("A=b=c", "A", "b=c");
    SplitPairUnique("KEY=", "KEY", "");
    SplitPairUnique(" K = v ", " K ", " v ");
    SplitPairUnique("=v", "", "v");
  }

  /** An argument with no `=` at all, the empty one included, is not a pair. */
  lemma SplitPairRejects()
    ensures SplitPair("BADPAIR") == None
    ensures SplitPair("") == None
  {
    var s := "BADPAIR";
    assert forall i | 0 <= i < |s| :: s[i] != '=';
    SplitPairRoundTrip(s);
  }
}
