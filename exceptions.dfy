/**
  * The payload of `OutOfOrderKeyException<K>` (a `SpreadsException`, whose
  * only content is its message) and the two recovery idioms its
  * documentation gives, stated against the reference cursor's lookup.
  */
module Exceptions {
  import opened Navigation

  /** Message both constructors use when none is given. */
  const OutOfOrderData: string := "Out of order data"

  /**
    * Key before the out-of-order data point arrived, key of that data point
    * (meaningful only when `hasKnownNewKey`), and the exception message.
    * A datatype value never changes, as the get-only properties never do.
    */
  datatype OutOfOrderKeyException = OutOfOrderKeyException(
    currentKey: Key, newKey: Key, hasKnownNewKey: bool, message: string)

  /** The two-key constructor: the new key is known. */
  function WithNewKey(currentKey: Key, newKey: Key, message: string := OutOfOrderData): (e: OutOfOrderKeyException)
    ensures e.currentKey == currentKey && e.newKey == newKey && e.hasKnownNewKey
    ensures e.message == message
  {
    OutOfOrderKeyException(currentKey, newKey, true, message)
  }

  /** The one-key constructor: the new key is unknown and left at `default(K)`, which is 0 for integer keys. */
  function WithoutNewKey(currentKey: Key, message: string := OutOfOrderData): (e: OutOfOrderKeyException)
    ensures e.currentKey == currentKey && !e.hasKnownNewKey && e.newKey == 0
    ensures e.message == message
  {
    OutOfOrderKeyException(currentKey, 0, false, message)
  }

  /**
    * Omitting the message gives "Out of order data"; the two constructors
    * are told apart by `hasKnownNewKey` alone, and each one's fields
    * determine its arguments.
    */
  lemma ConstructorsDistinct(c1: Key, n1: Key, c2: Key, m1: string, m2: string)
    ensures WithNewKey(c1, n1).message == OutOfOrderData
    ensures WithoutNewKey(c2).message == OutOfOrderData
    ensures WithNewKey(c1, n1, m1) != WithoutNewKey(c2, m2)
    ensures WithNewKey(c1, n1, m1) == WithNewKey(c2, n1, m2) <==> c1 == c2 && m1 == m2
  {
  }

  /**
    * Resuming: for a cursor that was at `currentKey`, `MoveAt(currentKey, GT)`
    * lands exactly where `MoveNext` would have, and so fails exactly when
    * `currentKey` is the last key.
    */
  lemma {:induction false} ResumeIsMoveNext<V>(s: seq<Pair<V>>, ex: OutOfOrderKeyException, j: int)
    requires StrictlySorted(s)
    requires 0 <= j < |s| && s[j].key == ex.currentKey
    ensures Seek(s, ex.currentKey, GT) == NextPos(s, j)
    ensures Seek(s, ex.currentKey, GT) == -1 <==> j == |s| - 1
  {
    SeekGtIsNext(s, j);
  }

  /**
    * Replaying: when the new key is known and present in the series,
    * `MoveAt(newKey, EQ)` succeeds and positions the cursor on it; when it is
    * absent the replay fails.
    */
  lemma {:induction false} ReplayFindsNewKey<V>(s: seq<Pair<V>>, ex: OutOfOrderKeyException)
    requires StrictlySorted(s) && ex.hasKnownNewKey
    ensures Seek(s, ex.newKey, EQ) != -1 <==> ex.newKey in KeysOf(s)
    ensures Seek(s, ex.newKey, EQ) != -1 ==> s[Seek(s, ex.newKey, EQ)].key == ex.newKey
    ensures forall j :: 0 <= j < |s| && s[j].key == ex.newKey ==> Seek(s, ex.newKey, EQ) == j
  {
    forall j | 0 <= j < |s| && s[j].key == ex.newKey ensures Seek(s, ex.newKey, EQ) == j {
      SeekEqFindsKey(s, ex.newKey, j);
    }
    if ex.newKey in KeysOf(s) {
      var j :| 0 <= j < |s| && KeysOf(s)[j] == ex.newKey;
      SeekEqFindsKey(s, ex.newKey, j);
    }
  }

  /**
    * The recovery scenario: after an exception with both keys known, replay
    * lands on the new key and resume lands on the smallest key above the
    * current one.
    */
  lemma RecoveryScenario()
    ensures var s := [Pair(1, "a"), Pair(2, "x"), Pair(3, "b"), Pair(5, "c")];
            var ex := WithNewKey(3, 2);
            && Seek(s, ex.newKey, EQ) == 1 && Seek(s, ex.currentKey, GT) == 3
  {
    var s := [Pair(1, "a"), Pair(2, "x"), Pair(3, "b"), Pair(5, "c")];
    SeekEqFindsKey(s, 2, 1);
    SeekGtIsNext(s, 2);
  }
}
