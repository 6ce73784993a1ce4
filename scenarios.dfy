/** Worked runs of the edit pipeline, each stated for every possible encryption answer. */
module Scenarios {
  import opened Pairs
  import KmsNames
  import opened DiffLines
  import opened EnvEdit
  import opened EditProperties

  /** Two new keys on an empty record: two `+` lines in input order, both stored. */
  lemma TwoNewKeys(kms: nat -> KmsReply)
    ensures Edited(map[], "", ["FOO=bar", "BAZ=qux"], false, kms)
         == Persist(map["FOO" := "bar", "BAZ" := "qux"], [Added("FOO", "bar"), Added("BAZ", "qux")])
  {
    SplitPairUnique("FOO=bar", "FOO", "bar");
    SplitPairUnique("BAZ=qux", "BAZ", "qux");
  }

  /** Overwriting a key logs the old value, then the new one. */
  lemma OverwriteKey(kms: nat -> KmsReply)
    ensures Edited(map["FOO" := "old"], "", ["FOO=new"], false, kms)
         == Persist(map["FOO" := "new"], [Removed("FOO", "old"), Added("FOO", "new")])
  {
    SplitPairUnique("FOO=new", "FOO", "new");
  }

  /** Deleting the only key leaves an empty record to write back. */
  lemma DeleteOnlyKey(kms: nat -> KmsReply)
    ensures Edited(map["FOO" := "bar"], "FOO", [], false, kms) == Persist(map[], [Removed("FOO", "bar")])
  {
    assert map["FOO" := "bar"] - {"FOO"} == map[];
  }

  /** Deleting a missing key fails with exit status 1 and writes nothing. */
  lemma DeleteMissingKey(args: seq<string>, encrypt: bool, kms: nat -> KmsReply)
    ensures Edited(map["FOO" := "bar"], "MISSING", args, encrypt, kms) == Failure([Missing("MISSING")])
  {
    DeleteAbsentFails(map["FOO" := "bar"], "MISSING", args, encrypt, kms);
  }

  /** A malformed argument after a good one: the good one was logged, nothing is written. */
  lemma BadPairAfterGood(kms: nat -> KmsReply)
    ensures Edited(map[], "", ["FOO=bar", "BADPAIR"], false, kms)
         == Failure([Added("FOO", "bar"), Malformed("BADPAIR")])
  {
    SplitPairUnique("FOO=bar", "FOO", "bar");
    SplitPairRejects();
  }

  /** Encrypting `SECRET=topsecret` stores the ciphertext under `SECRET_KMS`. */
  lemma EncryptedKey(kms: nat -> KmsReply)
    requires kms(0).Ciphertext?
    ensures Edited(map[], "", ["SECRET=topsecret"], true, kms)
         == Persist(map["SECRET_KMS" := kms(0).encoded], [Added("SECRET_KMS", kms(0).encoded)])
  {
    SplitPairUnique("SECRET=topsecret", "SECRET", "topsecret");
    assert !KmsNames.HasSuffix("SECRET", KmsNames.KmsSuffix);
    assert KmsNames.KmsName("SECRET") == "SECRET_KMS";
    assert Assignment("SECRET=topsecret", true, kms(0)) == Assign("SECRET_KMS", kms(0).encoded);
  }
}
