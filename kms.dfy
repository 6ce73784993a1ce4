/**
 * The naming convention for encrypted variables: a key whose value was
 * replaced by ciphertext ends in `_KMS`, and the suffix is added only when
 * it is not already there.
 */
module KmsNames {
  const KmsSuffix: string := "_KMS"

  /** Go's `strings.HasSuffix(s, suffix)`. */
  predicate HasSuffix(s: string, suffix: string)
  {
    |suffix| <= |s| && s[|s| - |suffix|..] == suffix
  }

  /**
   * The key an encrypted value is stored under: `k` itself when it already
   * ends in `_KMS`, else `k` joined to `KMS` with `_`.
   */
  function KmsName(k: string): string
  {
    if HasSuffix(k, KmsSuffix) then k else k + "_" + "KMS"
  }

  /**
   * The renamed key always ends in `_KMS`, equals `k` exactly when `k`
   * already did, starts with `k`, and holds an `=` only if `k` does.
   */
  lemma KmsNameShape(k: string)
    ensures HasSuffix(KmsName(k), KmsSuffix)
    ensures KmsName(k) == k <==> HasSuffix(k, KmsSuffix)
    ensures |k| <= |KmsName(k)| && KmsName(k)[..|k|] == k
    ensures '=' in KmsName(k) ==> '=' in k
  {
    if !HasSuffix(k, KmsSuffix) {
      var r := k + "_" + "KMS";
      assert r[|r| - |KmsSuffix|..] == KmsSuffix;
      assert |r| != |k|;
      assert r[..|k|] == k;
      if '=' in r {
        var j :| 0 <= j < |r| && r[j] == '=';
        assert j < |k|;
      }
    }
  }

  /** Renaming an already renamed key changes nothing. */
  lemma KmsNameIdempotent(k: string)
    ensures KmsName(KmsName(k)) == KmsName(k)
  {
    KmsNameShape(k);
  }
}
