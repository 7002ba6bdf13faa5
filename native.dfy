/*
 * What the Objective-C runtime hands this layer, as plain data.
 *
 * Every answer the bridge gets from a native call (an error's code and
 * description, a dictionary's count, the order its key enumerator yields,
 * `objectForKey:`, the runtime class of an object) is a field here rather
 * than behaviour: the bridge's own logic is what it does with those answers.
 * The predicates below state what the runtime guarantees about them.
 */
module Native {

  /** The runtime class names the dictionary's Debug classifier matches on. */
  const StringClass := "__NSCFString"
  const ErrorClass := "NSError"

  /** The user-info keys the NSError renderer treats specially. */
  const LocalizedFailureKey := "NSLocalizedFailure"
  const LocalizedFailureReasonKey := "NSLocalizedFailureReason"
  const UnderlyingErrorKey := "NSUnderlyingError"

  /**
   * An object reachable from a dictionary: its address (`handle`), its
   * runtime class name (`cls`), and, for a string or an error, its contents.
   */
  datatype Value =
    | Str(handle: nat, cls: string, text: string)
    | Err(handle: nat, cls: string, error: ErrorVal)
    | Other(handle: nat, cls: string)

  /**
   * A native NSError: its `code` (an NSInteger), its localized description,
   * and its user-info dictionary, as the entries its key enumerator yields,
   * in that order.  Being a finite value, a chain of underlying errors ends.
   */
  datatype ErrorVal = ErrorVal(code: int, desc: string, info: seq<(string, Value)>)

  /**
   * A native NSDictionary handle, as its three queries answer: the order in
   * which a key enumerator obtained from it yields keys, `objectForKey:`,
   * and `count`.
   */
  datatype DictHandle = DictHandle(order: seq<string>, entries: map<string, Value>, count: nat)

  // ---------------------------------------------------------------------------
  // What the runtime guarantees
  // ---------------------------------------------------------------------------

  /** NSInteger is a signed 64-bit integer. */
  predicate IsI64(x: int)
  {
    -0x8000_0000_0000_0000 <= x < 0x8000_0000_0000_0000
  }

  /** A dictionary holds each key once. */
  predicate DistinctKeys(info: seq<(string, Value)>)
  {
    forall i, j :: 0 <= i < j < |info| ==> info[i].0 != info[j].0
  }

  /** An object whose class is the string class is a string, one whose class is NSError is an error. */
  predicate Coherent(v: Value)
  {
    (v.cls == StringClass ==> v.Str?) && (v.cls == ErrorClass ==> v.Err?)
  }

  /** The documented types of the special user-info keys. */
  predicate TypedForKey(k: string, v: Value)
  {
    ((k == LocalizedFailureKey || k == LocalizedFailureReasonKey) ==> v.Str?)
    && (k == UnderlyingErrorKey ==> v.Err?)
  }

  /**
   * What the runtime guarantees of a value, all the way down a chain of
   * nested errors: its class tells what it is, codes are NSIntegers and
   * dictionaries hold each key once.
   */
  predicate RuntimeValue(v: Value)
    decreases v
  {
    Coherent(v) && (v.Err? ==> RuntimeError(v.error))
  }

  predicate RuntimeError(e: ErrorVal)
    decreases e
  {
    IsI64(e.code) && DistinctKeys(e.info)
    && forall i :: 0 <= i < |e.info| ==> RuntimeValue(e.info[i].1)
  }

  /**
   * The runtime's guarantees plus the documented types of the special
   * user-info keys: what Display's unchecked conversions rely on. Display
   * renders a nested error only under NSUnderlyingError, so only there is
   * the nested error held to the same assumption; under any other key it
   * shows the address and never looks inside.
   */
  predicate WellFormedEntry(p: (string, Value))
    decreases p
  {
    TypedForKey(p.0, p.1) && RuntimeValue(p.1)
    && (p.0 == UnderlyingErrorKey ==> WellFormedError(p.1.error))
  }

  predicate WellFormedError(e: ErrorVal)
    decreases e
  {
    IsI64(e.code) && DistinctKeys(e.info)
    && forall i :: 0 <= i < |e.info| ==> WellFormedEntry(e.info[i])
  }

  /** A key enumerator yields only keys the dictionary holds. */
  predicate WellFormedHandle(h: DictHandle)
  {
    forall k :: k in h.order ==> k in h.entries
  }

  predicate NoDuplicates(s: seq<string>)
  {
    forall i, j :: 0 <= i < j < |s| ==> s[i] != s[j]
  }

  /**
   * The enumerator visits every key exactly once and `count` is the number
   * of keys: true of any NSDictionary that is not mutated while enumerated.
   */
  predicate Faithful(h: DictHandle)
  {
    WellFormedHandle(h) && NoDuplicates(h.order)
    && (forall k :: k in h.entries ==> k in h.order)
    && h.count == |h.entries|
  }

  // ---------------------------------------------------------------------------
  // Dictionaries as sequences of entries
  // ---------------------------------------------------------------------------

  /** The pairs `(key, objectForKey:(key))` for the keys `ks`, in that order. */
  function Pairs(ks: seq<string>, m: map<string, Value>): seq<(string, Value)>
    requires forall k :: k in ks ==> k in m
  {
    seq(|ks|, i requires 0 <= i < |ks| => (ks[i], m[ks[i]]))
  }

  /** What a full iteration over a fresh wrapper of `h` yields. */
  function Entries(h: DictHandle): seq<(string, Value)>
    requires WellFormedHandle(h)
  {
    Pairs(h.order, h.entries)
  }

  function KeysOf(info: seq<(string, Value)>): seq<string>
  {
    seq(|info|, i requires 0 <= i < |info| => info[i].0)
  }

  /** `objectForKey:` of a dictionary whose entries are `info`. */
  function ToMap(info: seq<(string, Value)>): map<string, Value>
  {
    if info == [] then map[]
    else ToMap(info[..|info| - 1])[info[|info| - 1].0 := info[|info| - 1].1]
  }

  /** The native dictionary `userInfo` returns for `e`. */
  function UserInfoHandle(e: ErrorVal): DictHandle
  {
    DictHandle(KeysOf(e.info), ToMap(e.info), |ToMap(e.info)|)
  }

  lemma {:induction false} ToMapKeys(info: seq<(string, Value)>)
    ensures forall k :: k in ToMap(info) <==> k in KeysOf(info)
    decreases |info|
  {
    if info != [] {
      var n := |info| - 1;
      ToMapKeys(info[..n]);
      assert KeysOf(info) == KeysOf(info[..n]) + [info[n].0];
    }
  }

  lemma {:induction false} ToMapAt(info: seq<(string, Value)>, i: nat)
    requires DistinctKeys(info)
    requires i < |info|
    ensures info[i].0 in ToMap(info) && ToMap(info)[info[i].0] == info[i].1
    decreases |info|
  {
    var n := |info| - 1;
    if i < n {
      ToMapAt(info[..n], i);
    }
  }

  /** With distinct keys, the dictionary has one entry per element of `info`. */
  lemma {:induction false} ToMapSize(info: seq<(string, Value)>)
    requires DistinctKeys(info)
    ensures |ToMap(info)| == |info|
    decreases |info|
  {
    if info != [] {
      var n := |info| - 1;
      ToMapSize(info[..n]);
      ToMapKeys(info[..n]);
      assert info[n].0 !in KeysOf(info[..n]) by {
        forall j | 0 <= j < n
          ensures KeysOf(info[..n])[j] != info[n].0
        {
          assert info[j].0 != info[n].0;
        }
      }
    }
  }

  /** A set drawn from a sequence without duplicates has as many elements as the sequence. */
  lemma {:induction false} DistinctCardinality(s: seq<string>)
    requires NoDuplicates(s)
    ensures |set k | k in s| == |s|
    decreases |s|
  {
    if s != [] {
      var n := |s| - 1;
      DistinctCardinality(s[..n]);
      assert (set k | k in s) == (set k | k in s[..n]) + {s[n]};
      assert s[n] !in s[..n] by {
        forall j | 0 <= j < n
          ensures s[..n][j] != s[n]
        {
        }
      }
    }
  }

  /**
   * On a faithful dictionary a full iteration yields as many pairs as
   * `count` says, and none at all exactly when the count is zero.
   */
  lemma FaithfulEntriesCount(h: DictHandle)
    requires Faithful(h)
    ensures |Entries(h)| == h.count
    ensures h.count == 0 <==> Entries(h) == []
  {
    DistinctCardinality(h.order);
    assert (set k | k in h.order) == h.entries.Keys;
  }

  /**
   * The user-info dictionary of an error with distinct keys is faithful, and a full
   * iteration over it yields the error's entries in order.
   */
  lemma UserInfoEntries(e: ErrorVal)
    requires DistinctKeys(e.info)
    ensures WellFormedHandle(UserInfoHandle(e))
    ensures Faithful(UserInfoHandle(e))
    ensures Entries(UserInfoHandle(e)) == e.info
    ensures UserInfoHandle(e).count == |e.info|
  {
    var h := UserInfoHandle(e);
    ToMapKeys(e.info);
    ToMapSize(e.info);
    forall i | 0 <= i < |e.info|
      ensures Entries(h)[i] == e.info[i]
    {
      ToMapAt(e.info, i);
    }
    assert NoDuplicates(h.order) by {
      forall i, j | 0 <= i < j < |h.order|
        ensures h.order[i] != h.order[j]
      {
        assert e.info[i].0 != e.info[j].0;
      }
    }
  }

  /** Every value of the user-info dictionary of an error the runtime produced meets the runtime's guarantees. */
  lemma UserInfoValues(e: ErrorVal)
    requires RuntimeError(e)
    ensures forall k :: k in UserInfoHandle(e).entries ==> RuntimeValue(UserInfoHandle(e).entries[k])
  {
    ToMapKeys(e.info);
    forall k | k in ToMap(e.info)
      ensures RuntimeValue(ToMap(e.info)[k])
    {
      var i :| 0 <= i < |e.info| && KeysOf(e.info)[i] == k;
      ToMapAt(e.info, i);
    }
  }

  /** The Display precondition is stronger than the runtime's guarantees: whatever Display accepts, Debug accepts. */
  lemma WellFormedIsRuntime(e: ErrorVal)
    requires WellFormedError(e)
    ensures RuntimeError(e)
  {
    forall i | 0 <= i < |e.info|
      ensures RuntimeValue(e.info[i].1)
    {
      assert WellFormedEntry(e.info[i]);
    }
  }
}
