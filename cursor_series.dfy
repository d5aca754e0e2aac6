/**
  * `CursorSeries`: a series that is at the same time a cursor over its own
  * data, and that answers random-access queries through one lazily created
  * navigation cursor of its own kind.  The abstract movement primitives and
  * `Create` are supplied here by a reference cursor over a strictly
  * key-sorted sequence of pairs.
  *
  * The calling thread is explicit: every operation whose behaviour depends
  * on `Environment.CurrentManagedThreadId` takes it as `tid`.
  */
module Cursors {
  import opened Outcomes
  import opened Navigation

  /** Lifecycle tag of a cursor. */
  datatype CursorState = None | Initialized | Navigating

  /** The state after a movement: a successful move takes a fresh cursor out of `None`. */
  function AfterMove(s: CursorState, moved: bool): (r: CursorState)
    ensures r != None || (s == None && !moved)
    ensures s != None ==> r == s
  {
    if moved && s == None then Initialized else s
  }

  class CursorSeries<V> {
    /** The pairs the cursor traverses, shared (not owned) by every cursor over the series. */
    const data: seq<Pair<V>>
    /** `default(TValue)`, carried by the default pair the Try* queries return. */
    const defaultValue: V
    /** Whether `Create` returns the cursor itself in the case `NavCursor`'s diagnostic expects it to. */
    const reusesSelf: bool
    /** The thread that constructed this object. */
    const threadId: int

    /** Current position; -1 means unpositioned. */
    var pos: int
    var state: CursorState
    var navigationCursor: CursorSeries?<V>

    /** The cursor-level invariant. */
    ghost predicate CursorValid()
      reads this
    {
      StrictlySorted(data) && -1 <= pos < |data| && (state == None ==> pos == -1)
    }

    /** The series-level invariant: the navigation cursor, once created, runs over the same data and stays `Navigating`. */
    ghost predicate Valid()
      reads this, navigationCursor
    {
      CursorValid() &&
      (navigationCursor != null ==>
         navigationCursor.data == data && navigationCursor.defaultValue == defaultValue &&
         navigationCursor.state == Navigating && navigationCursor.CursorValid())
    }

    /** The default `KeyValuePair` returned by a failed Try* query. */
    function DefaultPair(): (p: Pair<V>)
      ensures p.key == 0 && p.value == defaultValue
    {
      Pair(0, defaultValue)
    }

    constructor (data: seq<Pair<V>>, defaultValue: V, reusesSelf: bool, tid: int)
      requires StrictlySorted(data)
      ensures Valid()
      ensures this.data == data && this.defaultValue == defaultValue && this.reusesSelf == reusesSelf
      ensures threadId == tid && pos == -1 && state == None && navigationCursor == null
    {
      this.data := data;
      this.defaultValue := defaultValue;
      this.reusesSelf := reusesSelf;
      threadId := tid;
      pos := -1;
      state := None;
      navigationCursor := null;
    }

    // ---------------------------------------------------------------------
    // Reference cursor: the abstract members the series is built on.

    /**
      * A new unpositioned cursor over the same data.  When `reusesSelf`
      * holds, a cursor still in state `None` asked from its owner thread
      * returns itself and leaves `None`, as the `NavCursor` diagnostic
      * expects; in every other case it allocates.
      */
    method Create(tid: int) returns (c: CursorSeries<V>)
      requires Valid()
      modifies this`state
      ensures Valid()
      ensures c.data == data && c.defaultValue == defaultValue && c.reusesSelf == reusesSelf
      ensures c.pos == -1 && c != navigationCursor
      ensures var reuse := old(state) == None && tid == threadId && reusesSelf;
              && (reuse ==> c == this && state == Initialized)
              && (!reuse ==> fresh(c) && c.state == None && c.threadId == tid && c.navigationCursor == null)
              && (!reuse ==> state == old(state))
    {
      if state == None && tid == threadId && reusesSelf {
        state := Initialized;
        c := this;
      } else {
        c := new CursorSeries(data, defaultValue, reusesSelf, tid);
      }
    }

    method MoveFirst() returns (moved: bool)
      requires CursorValid()
      modifies this`pos, this`state
      ensures CursorValid()
      ensures moved <==> |data| > 0
      ensures pos == (if moved then 0 else -1)
      ensures state == AfterMove(old(state), moved)
    {
      moved := |data| > 0;
      pos := if moved then 0 else -1;
      state := AfterMove(state, moved);
    }

    method MoveLast() returns (moved: bool)
      requires CursorValid()
      modifies this`pos, this`state
      ensures CursorValid()
      ensures moved <==> |data| > 0
      ensures pos == |data| - 1
      ensures state == AfterMove(old(state), moved)
    {
      moved := |data| > 0;
      pos := |data| - 1;
      state := AfterMove(state, moved);
    }

    /** Advances to the next key; from the unpositioned state that is the first key. */
    method MoveNext() returns (moved: bool)
      requires CursorValid()
      modifies this`pos, this`state
      ensures CursorValid()
      ensures pos == NextPos(data, old(pos))
      ensures moved <==> pos != -1
      ensures state == AfterMove(old(state), moved)
    {
      pos := NextPos(data, pos);
      moved := pos != -1;
      state := AfterMove(state, moved);
    }

    /** Repositions by directional lookup; unpositioned when no key qualifies. */
    method MoveAt(key: Key, dir: Lookup) returns (moved: bool)
      requires CursorValid()
      modifies this`pos, this`state
      ensures CursorValid()
      ensures pos == Seek(data, key, dir)
      ensures moved <==> pos != -1
      ensures state == AfterMove(old(state), moved)
    {
      pos := Seek(data, key, dir);
      moved := pos != -1;
      state := AfterMove(state, moved);
    }

    // ---------------------------------------------------------------------
    // The series surface.

    /**
      * What a query that goes through `NavCursor` does to the series object
      * itself: an existing navigation cursor is kept; one created by the call
      * is `this` exactly when self-reuse applied, and otherwise a fresh object; and the
      * series' own position and state are untouched unless it is itself the
      * navigation cursor.
      */
    twostate predicate NavigationFrame(tid: int)
      reads this
    {
      && (old(navigationCursor) != null ==> navigationCursor == old(navigationCursor))
      && (old(navigationCursor) == null && navigationCursor != null ==>
            (navigationCursor == this <==> old(state) == None && tid == threadId && reusesSelf))
      && (old(navigationCursor) == null && navigationCursor != null ==>
            navigationCursor == this || fresh(navigationCursor))
      && (navigationCursor != this ==> pos == old(pos) && state == old(state))
    }

    /**
      * The navigation cursor, created on first access.  `violation` is the
      * diagnostic the source traces (and throws in DEBUG builds): the
      * self-reuse shortcut was expected but `Create` did not take it.
      */
    method NavCursor(tid: int) returns (c: CursorSeries<V>, violation: bool)
      requires Valid()
      modifies this
      ensures Valid()
      ensures c == navigationCursor && c.state == Navigating
      ensures c.data == data && c.defaultValue == defaultValue
      ensures pos == old(pos)
      ensures old(navigationCursor) != null ==> c == old(navigationCursor) && unchanged(this) && !violation
      ensures old(navigationCursor) == null ==>
                && (violation <==> old(state) == None && tid == threadId && !reusesSelf)
                && (c == this <==> old(state) == None && tid == threadId && reusesSelf)
                && (c != this ==> fresh(c) && c.pos == -1 && c.threadId == tid && state == old(state))
    {
      violation := false;
      if navigationCursor == null {
        var initialState := state;
        var created := Create(tid);
        navigationCursor := created;
        if initialState == None && threadId == tid && state != Initialized {
          violation := true;
        }
        created.state := Navigating;
      }
      c := navigationCursor;
    }

    /** An independent cursor for enumeration: never the navigation cursor. */
    method GetEnumerator(tid: int) returns (e: CursorSeries<V>)
      requires Valid()
      modifies this`state
      ensures Valid()
      ensures e != navigationCursor && (e == this || fresh(e))
      ensures e.data == data && e.pos == -1
      ensures e == this <==> old(state) == None && tid == threadId && reusesSelf
      ensures e == this ==> state == Initialized
      ensures e != this ==> state == old(state) && e.state == None && e.threadId == tid
    {
      e := Create(tid);
    }

    method IsEmpty(tid: int) returns (empty: bool)
      requires Valid()
      modifies this, navigationCursor
      ensures Valid() && navigationCursor != null
      ensures NavigationFrame(tid)
      ensures empty <==> |data| == 0
      ensures navigationCursor.pos == (if empty then -1 else 0)
    {
      var c, violation := NavCursor(tid);
      var moved := c.MoveFirst();
      empty := !moved;
    }

    method First(tid: int) returns (r: Result<Pair<V>>)
      requires Valid()
      modifies this, navigationCursor
      ensures Valid() && navigationCursor != null
      ensures NavigationFrame(tid)
      ensures r.Err? <==> |data| == 0
      ensures r.Err? ==> r.error == InvalidOperation(SeriesIsEmpty)
      ensures r.Ok? ==> IsMinimum(data, r.value)
      ensures navigationCursor.pos == (if r.Ok? then 0 else -1)
    {
      var c, violation := NavCursor(tid);
      var moved := c.MoveFirst();
      if moved {
        EndsAreExtremes(data);
        r := Ok(c.data[c.pos]);
      } else {
        r := Err(InvalidOperation(SeriesIsEmpty));
      }
    }

    method Last(tid: int) returns (r: Result<Pair<V>>)
      requires Valid()
      modifies this, navigationCursor
      ensures Valid() && navigationCursor != null
      ensures NavigationFrame(tid)
      ensures r.Err? <==> |data| == 0
      ensures r.Err? ==> r.error == InvalidOperation(SeriesIsEmpty)
      ensures r.Ok? ==> IsMaximum(data, r.value)
      ensures navigationCursor.pos == |data| - 1
    {
      var c, violation := NavCursor(tid);
      var moved := c.MoveLast();
      if moved {
        EndsAreExtremes(data);
        r := Ok(c.data[c.pos]);
      } else {
        r := Err(InvalidOperation(SeriesIsEmpty));
      }
    }

    /**
      * The value at `idx` as the source computes it: `MoveFirst`, then
      * `idx - 1` calls of `MoveNext` (see `AtIndexAsWritten`).  A negative
      * index fails before the navigation cursor is even created.
      */
    method GetAt(idx: int, tid: int) returns (r: Result<V>)
      requires Valid()
      modifies this, navigationCursor
      ensures Valid()
      ensures r == AtIndexAsWritten(data, idx)
      ensures idx < 0 ==> unchanged(this) && (navigationCursor != null ==> unchanged(navigationCursor))
      ensures idx >= 0 ==> (navigationCursor != null &&
                            navigationCursor.pos == (if r.Ok? then (if idx == 0 then 0 else idx - 1) else -1))
      ensures NavigationFrame(tid)
    {
      if idx < 0 {
        return Err(ArgumentOutOfRange("idx"));
      }
      var c, violation := NavCursor(tid);
      var moved := c.MoveFirst();
      if !moved {
        return Err(KeyNotFound);
      }
      var i := 0;
      while i < idx - 1
        invariant 0 <= i <= (if idx >= 1 then idx - 1 else 0)
        invariant c == navigationCursor && c.data == data && c.state == Navigating
        invariant c.CursorValid() && c.pos == i
        invariant Valid()
        modifies c
      {
        moved := c.MoveNext();
        if !moved {
          return Err(KeyNotFound);
        }
        i := i + 1;
      }
      r := Ok(c.data[c.pos].value);
    }

    /**
      * The 0-based `GetAt` (`idx` calls of `MoveNext`), the corrected
      * counterpart of `GetAt`.
      */
    method GetAtZeroBased(idx: int, tid: int) returns (r: Result<V>)
      requires Valid()
      modifies this, navigationCursor
      ensures Valid()
      ensures r == AtIndexIntended(data, idx)
      ensures idx < 0 ==> unchanged(this) && (navigationCursor != null ==> unchanged(navigationCursor))
      ensures idx >= 0 ==> navigationCursor != null && navigationCursor.pos == (if r.Ok? then idx else -1)
      ensures NavigationFrame(tid)
    {
      if idx < 0 {
        return Err(ArgumentOutOfRange("idx"));
      }
      var c, violation := NavCursor(tid);
      var moved := c.MoveFirst();
      if !moved {
        return Err(KeyNotFound);
      }
      var i := 0;
      while i < idx
        invariant 0 <= i <= idx
        invariant c == navigationCursor && c.data == data && c.state == Navigating
        invariant c.CursorValid() && c.pos == i
        invariant Valid()
        modifies c
      {
        moved := c.MoveNext();
        if !moved {
          return Err(KeyNotFound);
        }
        i := i + 1;
      }
      r := Ok(c.data[c.pos].value);
    }

    /** Directional lookup through the navigation cursor; never fails, returns the default pair when nothing qualifies. */
    method TryFind(key: Key, dir: Lookup, tid: int) returns (found: bool, value: Pair<V>)
      requires Valid()
      modifies this, navigationCursor
      ensures Valid() && navigationCursor != null
      ensures NavigationFrame(tid)
      ensures navigationCursor.pos == Seek(data, key, dir)
      ensures found <==> exists j :: 0 <= j < |data| && Matches(data[j].key, key, dir)
      ensures found ==> value in data && Matches(value.key, key, dir) && value == data[Seek(data, key, dir)]
      ensures !found ==> value == DefaultPair()
    {
      var c, violation := NavCursor(tid);
      found := c.MoveAt(key, dir);
      if found {
        value := c.data[c.pos];
      } else {
        value := DefaultPair();
      }
    }

    method TryGetFirst(tid: int) returns (found: bool, value: Pair<V>)
      requires Valid()
      modifies this, navigationCursor
      ensures Valid() && navigationCursor != null
      ensures NavigationFrame(tid)
      ensures found <==> |data| > 0
      ensures found ==> IsMinimum(data, value)
      ensures navigationCursor.pos == (if found then 0 else -1)
      ensures !found ==> value == DefaultPair()
    {
      var c, violation := NavCursor(tid);
      found := c.MoveFirst();
      if found {
        EndsAreExtremes(data);
        value := c.data[c.pos];
      } else {
        value := DefaultPair();
      }
    }

    method TryGetLast(tid: int) returns (found: bool, value: Pair<V>)
      requires Valid()
      modifies this, navigationCursor
      ensures Valid() && navigationCursor != null
      ensures NavigationFrame(tid)
      ensures found <==> |data| > 0
      ensures found ==> IsMaximum(data, value)
      ensures navigationCursor.pos == |data| - 1
      ensures !found ==> value == DefaultPair()
    {
      var c, violation := NavCursor(tid);
      found := c.MoveLast();
      if found {
        EndsAreExtremes(data);
        value := c.data[c.pos];
      } else {
        value := DefaultPair();
      }
    }

    /** All keys in ascending order, read by driving a cursor of its own to the end. */
    method Keys(tid: int) returns (keys: seq<Key>)
      requires Valid()
      modifies this
      ensures Valid()
      ensures keys == KeysOf(data)
      ensures navigationCursor == old(navigationCursor)
      ensures navigationCursor != null ==> navigationCursor.pos == old(navigationCursor.pos)
      ensures var reuse := old(state) == None && tid == threadId && reusesSelf;
              && (!reuse ==> pos == old(pos) && state == old(state))
              && (reuse ==> pos == -1 && state == Initialized)
    {
      var c := Create(tid);
      keys := [];
      var more := c.MoveNext();
      while more
        invariant c.CursorValid() && c.data == data && c != navigationCursor
        invariant navigationCursor == old(navigationCursor) && Valid()
        invariant navigationCursor != null ==> navigationCursor.pos == old(navigationCursor.pos)
        invariant more ==> c.pos == |keys|
        invariant !more ==> c.pos == -1
        invariant c == this ==> state == Initialized
        invariant c != this ==> pos == old(pos) && state == old(state)
        invariant !more ==> |keys| == |data|
        invariant |keys| <= |data| && keys == KeysOf(data)[..|keys|]
        decreases |data| - |keys| + (if more then 1 else 0)
        modifies c
      {
        keys := keys + [c.data[c.pos].key];
        more := c.MoveNext();
      }
    }

    /** All values in ascending key order, read by driving a cursor of its own to the end. */
    method Values(tid: int) returns (values: seq<V>)
      requires Valid()
      modifies this
      ensures Valid()
      ensures values == ValuesOf(data)
      ensures navigationCursor == old(navigationCursor)
      ensures navigationCursor != null ==> navigationCursor.pos == old(navigationCursor.pos)
      ensures var reuse := old(state) == None && tid == threadId && reusesSelf;
              && (!reuse ==> pos == old(pos) && state == old(state))
              && (reuse ==> pos == -1 && state == Initialized)
    {
      var c := Create(tid);
      values := [];
      var more := c.MoveNext();
      while more
        invariant c.CursorValid() && c.data == data && c != navigationCursor
        invariant navigationCursor == old(navigationCursor) && Valid()
        invariant navigationCursor != null ==> navigationCursor.pos == old(navigationCursor.pos)
        invariant more ==> c.pos == |values|
        invariant !more ==> c.pos == -1
        invariant c == this ==> state == Initialized
        invariant c != this ==> pos == old(pos) && state == old(state)
        invariant !more ==> |values| == |data|
        invariant |values| <= |data| && values == ValuesOf(data)[..|values|]
        decreases |data| - |values| + (if more then 1 else 0)
        modifies c
      {
        values := values + [c.data[c.pos].value];
        more := c.MoveNext();
      }
    }

    /** The synchronous series does not support asynchronous movement. */
    function MoveNextAsync(): (r: Result<bool>)
      ensures r.Err? && r.error.NotSupported?
    {
      Err(NotSupported(AsyncMoveNextNotSupported))
    }
  }
  /**
    * A client of the series surface: consecutive queries share the one
    * navigation cursor the first query creates, and `First` and
    * `TryGetFirst` agree.  From a foreign thread the series itself stays in
    * state `None`; from the owner thread of a self-reusing series the series
    * is its own navigation cursor.
    */
  method SharedNavigationClient<V>(data: seq<Pair<V>>, dflt: V, owner: int, other: int)
    requires StrictlySorted(data) && owner != other
  {
    var s := new CursorSeries(data, dflt, true, owner);
    var first := s.First(other);
    var nav := s.navigationCursor;
    assert nav != s && s.state == None;
    var found, p := s.TryGetFirst(owner);
    assert s.navigationCursor == nav;
    if first.Ok? {
      ExtremesAreUnique(data, first.value);
      ExtremesAreUnique(data, p);
      assert found && p == first.value;
    }
    var empty := s.IsEmpty(owner);
    assert empty <==> first.Err?;

    var t := new CursorSeries(data, dflt, true, owner);
    var found2, q := t.TryFind(0, GE, owner);
    assert t.navigationCursor == t && t.state == Navigating;
    var e := t.GetEnumerator(owner);
    assert e != t && fresh(e);
  }
}
