/**
  * The value-level meaning of navigating a key-sorted series: directional
  * lookup, stepping forward, and the element `GetAt` reaches.  The reference
  * cursor in module Cursors is proved against these functions, and the
  * lemmas here state what they promise.
  */
module Navigation {
  import opened Outcomes

  /** Series keys; the source is generic over a comparer, here keys are integers in their natural order. */
  type Key = int

  datatype Pair<V> = Pair(key: Key, value: V)

  /** Direction of a `MoveAt`/`TryFind` lookup relative to the requested key. */
  datatype Lookup = LT | LE | EQ | GE | GT

  predicate Matches(k: Key, key: Key, dir: Lookup) {
    match dir
    case LT => k < key
    case LE => k <= key
    case EQ => k == key
    case GE => k >= key
    case GT => k > key
  }

  /** LT and LE look for the nearest key at or below; the others for the nearest at or above. */
  predicate Backward(dir: Lookup) {
    dir == LT || dir == LE
  }

  /** The series invariant: keys are unique and the pairs are in ascending key order. */
  ghost predicate StrictlySorted<V>(s: seq<Pair<V>>) {
    forall i, j :: 0 <= i < j < |s| ==> s[i].key < s[j].key
  }

  /** The first index at or after `i` whose key matches, or -1. */
  function FirstFrom<V>(s: seq<Pair<V>>, key: Key, dir: Lookup, i: nat): (r: int)
    requires i <= |s|
    ensures r == -1 || i <= r < |s|
    ensures r != -1 ==> Matches(s[r].key, key, dir)
    ensures forall j :: i <= j < |s| && (r == -1 || j < r) ==> !Matches(s[j].key, key, dir)
    decreases |s| - i
  {
    if i == |s| then -1
    else if Matches(s[i].key, key, dir) then i
    else FirstFrom(s, key, dir, i + 1)
  }

  /** The last index below `n` whose key matches, or -1. */
  function LastBefore<V>(s: seq<Pair<V>>, key: Key, dir: Lookup, n: nat): (r: int)
    requires n <= |s|
    ensures r == -1 || 0 <= r < n
    ensures r != -1 ==> Matches(s[r].key, key, dir)
    ensures forall j :: 0 <= j < n && r < j ==> !Matches(s[j].key, key, dir)
  {
    if n == 0 then -1
    else if Matches(s[n - 1].key, key, dir) then n - 1
    else LastBefore(s, key, dir, n - 1)
  }

  /**
    * The position `MoveAt(key, dir)` lands on, or -1 when it fails: the
    * nearest matching key in the lookup's direction.
    */
  function Seek<V>(s: seq<Pair<V>>, key: Key, dir: Lookup): (r: int)
    ensures -1 <= r < |s|
    ensures r != -1 ==> Matches(s[r].key, key, dir)
    ensures r == -1 <==> forall j :: 0 <= j < |s| ==> !Matches(s[j].key, key, dir)
    ensures r != -1 && !Backward(dir) ==> forall j :: 0 <= j < r ==> !Matches(s[j].key, key, dir)
    ensures r != -1 && Backward(dir) ==> forall j :: r < j < |s| ==> !Matches(s[j].key, key, dir)
  {
    if Backward(dir) then LastBefore(s, key, dir, |s|) else FirstFrom(s, key, dir, 0)
  }

  /** The position `MoveNext` reaches from position `p` (-1 = unpositioned), or -1 past the end. */
  function NextPos<V>(s: seq<Pair<V>>, p: int): (r: int)
    requires -1 <= p < |s|
    ensures -1 <= r < |s|
    ensures r != -1 <==> p < |s| - 1
    ensures r != -1 ==> r == p + 1
  {
    if p + 1 < |s| then p + 1 else -1
  }

  /** Pair `p` is in the series and no key of the series is smaller. */
  ghost predicate IsMinimum<V>(s: seq<Pair<V>>, p: Pair<V>) {
    p in s && forall q :: q in s ==> p.key <= q.key
  }

  /** Pair `p` is in the series and no key of the series is larger. */
  ghost predicate IsMaximum<V>(s: seq<Pair<V>>, p: Pair<V>) {
    p in s && forall q :: q in s ==> q.key <= p.key
  }

  /** The ends of a sorted series are its minimum and maximum pairs. */
  lemma EndsAreExtremes<V>(s: seq<Pair<V>>)
    requires StrictlySorted(s) && |s| > 0
    ensures IsMinimum(s, s[0])
    ensures IsMaximum(s, s[|s| - 1])
  {
    forall q | q in s ensures s[0].key <= q.key <= s[|s| - 1].key {
      var j :| 0 <= j < |s| && s[j] == q;
      assert j == 0 || s[0].key < s[j].key;
      assert j == |s| - 1 || s[j].key < s[|s| - 1].key;
    }
  }

  /** In a series with unique keys the minimum and maximum pairs are unique. */
  lemma ExtremesAreUnique<V>(s: seq<Pair<V>>, p: Pair<V>)
    requires StrictlySorted(s) && |s| > 0
    ensures IsMinimum(s, p) ==> p == s[0]
    ensures IsMaximum(s, p) ==> p == s[|s| - 1]
  {
    EndsAreExtremes(s);
    if IsMinimum(s, p) || IsMaximum(s, p) {
      var j :| 0 <= j < |s| && s[j] == p;
      assert j == 0 || s[0].key < s[j].key;
      assert j == |s| - 1 || s[j].key < s[|s| - 1].key;
    }
  }

  /** An EQ lookup succeeds exactly when the key is present, and then lands on it. */
  lemma SeekEqFindsKey<V>(s: seq<Pair<V>>, key: Key, j: int)
    requires StrictlySorted(s)
    requires 0 <= j < |s| && s[j].key == key
    ensures Seek(s, key, EQ) == j
  {
    assert Matches(s[j].key, key, EQ);
    forall i | 0 <= i < |s| && i != j ensures !Matches(s[i].key, key, EQ) {
      assert s[i].key < s[j].key || s[j].key < s[i].key;
    }
  }

  /** A GT lookup from a key present in the series lands where `MoveNext` from that key lands. */
  lemma SeekGtIsNext<V>(s: seq<Pair<V>>, j: int)
    requires StrictlySorted(s)
    requires 0 <= j < |s|
    ensures Seek(s, s[j].key, GT) == NextPos(s, j)
  {
    var k := s[j].key;
    forall i | 0 <= i <= j ensures !Matches(s[i].key, k, GT) {
      assert i == j || s[i].key < s[j].key;
    }
    if j + 1 < |s| {
      assert Matches(s[j + 1].key, k, GT);
    }
  }

  /** The keys of a series, in series order. */
  function KeysOf<V>(s: seq<Pair<V>>): (r: seq<Key>)
    ensures |r| == |s|
    ensures forall i :: 0 <= i < |s| ==> r[i] == s[i].key
  {
    seq(|s|, i requires 0 <= i < |s| => s[i].key)
  }

  /** The values of a series, in series order. */
  function ValuesOf<V>(s: seq<Pair<V>>): (r: seq<V>)
    ensures |r| == |s|
    ensures forall i :: 0 <= i < |s| ==> r[i] == s[i].value
  {
    seq(|s|, i requires 0 <= i < |s| => s[i].value)
  }

  /** Enumerating a sorted series yields its keys in strictly ascending order. */
  lemma KeysAscending<V>(s: seq<Pair<V>>)
    requires StrictlySorted(s)
    ensures forall i, j :: 0 <= i < j < |KeysOf(s)| ==> KeysOf(s)[i] < KeysOf(s)[j]
  {
  }

  /**
    * The outcome of `GetAt(idx)` as the source computes it: after `MoveFirst`
    * it advances only `idx - 1` times, so it returns element `max(0, idx - 1)`
    * and fails only on an empty series or when `idx` exceeds the length.
    */
  function AtIndexAsWritten<V>(s: seq<Pair<V>>, idx: int): Result<V> {
    if idx < 0 then Err(ArgumentOutOfRange("idx"))
    else if |s| == 0 || idx > |s| then Err(KeyNotFound)
    else Ok(s[if idx == 0 then 0 else idx - 1].value)
  }

  /** The 0-based outcome `GetAt` evidently intends: element `idx`, or not-found past the end. */
  function AtIndexIntended<V>(s: seq<Pair<V>>, idx: int): Result<V> {
    if idx < 0 then Err(ArgumentOutOfRange("idx"))
    else if idx >= |s| then Err(KeyNotFound)
    else Ok(s[idx].value)
  }

  /** The intended `GetAt` returns the idx-th value in key order and fails exactly outside 0..|s|-1. */
  lemma AtIndexIntendedIsIth<V>(s: seq<Pair<V>>, idx: int)
    ensures AtIndexIntended(s, idx).Ok? <==> 0 <= idx < |s|
    ensures 0 <= idx < |s| ==> AtIndexIntended(s, idx).value == ValuesOf(s)[idx]
    ensures idx < 0 ==> AtIndexIntended(s, idx) == Err(ArgumentOutOfRange("idx"))
    ensures idx >= |s| ==> AtIndexIntended(s, idx) == Err(KeyNotFound)
  {
  }

  /** As written, `GetAt(idx)` for `1 <= idx <= n` returns what the 0-based version returns for `idx - 1`. */
  lemma AsWrittenIsShifted<V>(s: seq<Pair<V>>, idx: int)
    requires 1 <= idx <= |s|
    ensures AtIndexAsWritten(s, idx) == AtIndexIntended(s, idx - 1)
  {
  }

  /** As written, `GetAt` succeeds exactly for `0 <= idx <= n` on a non-empty series, and `GetAt(0) == GetAt(1)`. */
  lemma AsWrittenDomain<V>(s: seq<Pair<V>>, idx: int)
    ensures AtIndexAsWritten(s, idx).Ok? <==> |s| > 0 && 0 <= idx <= |s|
    ensures idx >= 0 && AtIndexAsWritten(s, idx).Err? ==> AtIndexAsWritten(s, idx) == Err(KeyNotFound)
    ensures |s| > 0 ==> AtIndexAsWritten(s, 0) == AtIndexAsWritten(s, 1)
  {
  }

  /**
    * The discrepancy on a concrete two-element series: index 0 and index 1
    * give the same value, and index 2 returns the last value where the
    * 0-based reading fails with not-found.
    */
  lemma GetAtOffByOne()
    ensures var s := [Pair(1, 'a'), Pair(3, 'b')];
            && AtIndexAsWritten(s, 0) == Ok('a') && AtIndexAsWritten(s, 1) == Ok('a')
            && AtIndexAsWritten(s, 2) == Ok('b')
            && AtIndexIntended(s, 1) == Ok('b') && AtIndexIntended(s, 2) == Err(KeyNotFound)
  {
  }

  /** The lookup scenario over the series {1:"a", 3:"b", 5:"c"}. */
  lemma SeekScenario()
    ensures var s := [Pair(1, "a"), Pair(3, "b"), Pair(5, "c")];
            && Seek(s, 3, EQ) == 1 && Seek(s, 4, GE) == 2
            && Seek(s, 4, LE) == 1 && Seek(s, 6, GE) == -1
  {
    var s := [Pair(1, "a"), Pair(3, "b"), Pair(5, "c")];
    assert Seek(s, 6, GE) == -1 by {
      forall j | 0 <= j < |s| ensures !Matches(s[j].key, 6, GE) {}
    }
  }
}
