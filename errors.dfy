/** The cache's error taxonomy: five kinds, and an error value made of a
    kind and a message (internal/cache/error.go). */
module CacheErrors {

  type DBErrorType = string

  const DBErrorInvalidRequest: DBErrorType := "invalid request"
  const DBErrorKeyDoesNotExist: DBErrorType := "key does not exist"
  /** The success sentinel: the kind a caller compares against to tell
      "no error" from an error. */
  const DBNoError: DBErrorType := "no error"
  const DBErrorExpiredKey: DBErrorType := "expired key"
  const DBErrorCompressionFailure: DBErrorType := "compression failure"

  const Kinds: seq<DBErrorType> :=
    [DBErrorInvalidRequest, DBErrorKeyDoesNotExist, DBNoError, DBErrorExpiredKey, DBErrorCompressionFailure]

  const ErrorPrefix: string := "ERROR '"
  const MessageInfix: string := "' MESSAGE '"

  /** An immutable error value; `Error()` renders it and `Kind()` classifies it. */
  datatype DBError = DBError(kind: DBErrorType, message: string)
  {
    /** The rendered text `ERROR '<kind>' MESSAGE '<message>'`: the kind
        stands right after the fixed prefix, the message right after the
        fixed infix, and one closing quote ends it. */
    function Error(): (r: string)
      ensures |r| == |ErrorPrefix| + |kind| + |MessageInfix| + |message| + 1
      ensures r[..|ErrorPrefix|] == ErrorPrefix
      ensures r[|ErrorPrefix|..|ErrorPrefix| + |kind|] == kind
      ensures r[|ErrorPrefix| + |kind|..|ErrorPrefix| + |kind| + |MessageInfix|] == MessageInfix
      ensures r[|ErrorPrefix| + |kind| + |MessageInfix|..|r| - 1] == message
      ensures r[|r| - 1] == '\''
    {
      var r := ErrorPrefix + kind + MessageInfix + message + "'";
      assert r == ErrorPrefix + (kind + (MessageInfix + (message + "'")));
      r
    }

    /** The kind the error was built with, which is also the kind `Error()`
        shows right after its prefix. */
    function Kind(): (k: DBErrorType)
      ensures k == kind
      ensures Error()[|ErrorPrefix|..|ErrorPrefix| + |k|] == k
    {
      kind
    }
  }

  /** The five kinds are pairwise different, so comparing kinds tells them apart. */
  lemma KindsDistinct()
    ensures forall i, j :: 0 <= i < j < |Kinds| ==> Kinds[i] != Kinds[j]
  {
    assert Kinds[0][0] == 'i' && Kinds[1][0] == 'k' && Kinds[2][0] == 'n';
    assert Kinds[3][0] == 'e' && Kinds[4][0] == 'c';
  }

  /** None of the five kinds contains a single quote. */
  lemma KindsUnquoted()
    ensures forall i :: 0 <= i < |Kinds| ==> '\'' !in Kinds[i]
  {
  }

  /** For kinds without a quote (every one of the five constants), the
      rendered text determines the error: two errors with the same text
      have the same kind and the same message. */
  lemma {:induction false} ErrorDeterminesError(e1: DBError, e2: DBError)
    requires '\'' !in e1.kind && '\'' !in e2.kind
    requires e1.Error() == e2.Error()
    ensures e1 == e2
  {
    // A longer kind would put one of its own characters where the shorter
    // kind's closing quote stands.
    if |e1.kind| < |e2.kind| {
      KindCharAt(e2, |e1.kind|);
      QuoteAfterKind(e1);
      assert false;
    } else if |e2.kind| < |e1.kind| {
      KindCharAt(e1, |e2.kind|);
      QuoteAfterKind(e2);
      assert false;
    }
  }

  lemma KindCharAt(e: DBError, i: nat)
    requires i < |e.kind|
    ensures e.Error()[|ErrorPrefix| + i] == e.kind[i]
  {
  }

  lemma QuoteAfterKind(e: DBError)
    ensures e.Error()[|ErrorPrefix| + |e.kind|] == '\''
  {
  }
}
