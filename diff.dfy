/**
 * The lines the tool writes to standard output: the `-`/`+` change log of
 * an edit, the plain listing, and the messages of the runs that fail.
 */
module DiffLines {
  import opened Options
  import opened Pairs

  datatype Line =
    | Removed(key: string, value: string)    // `- key=value`, an old value going away
    | Added(key: string, value: string)      // `+ key=value`, a value being stored
    | Entry(key: string, value: string)      // `key=value`, one entry of a listing
    | Missing(key: string)                   // the delete key is not in the record
    | Malformed(pair: string)                // an argument without `=`
    | KmsError(message: string)              // the encryption service refused

  /** The text of a line as printed, without its trailing newline. */
  function Render(l: Line): string
  {
    match l
    case Removed(k, v) => "- " + k + "=" + v
    case Added(k, v) => "+ " + k + "=" + v
    case Entry(k, v) => k + "=" + v
    case Missing(k) => k + " doesn't exist"
    case Malformed(p) => "Error: \"" + p + "\" is not a valid key-value pair"
    case KmsError(m) => m
  }

  /**
   * A listing line, and an addition line without its `+ ` prefix, read back
   * as a `KEY=VALUE` argument give the same key and value again.
   */
  lemma RenderedLinesReparse(k: string, v: string)
    requires '=' !in k
    ensures SplitPair(Render(Entry(k, v))) == Some((k, v))
    ensures Render(Added(k, v))[..2] == "+ " && SplitPair(Render(Added(k, v))[2..]) == Some((k, v))
  {
    SplitPairUnique(Render(Entry(k, v)), k, v);
    assert Render(Added(k, v))[2..] == k + "=" + v;
    SplitPairUnique(Render(Added(k, v))[2..], k, v);
  }
}
